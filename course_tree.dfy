/**
 The value-level view of the student tree: a binary tree whose nodes carry a
 student's bNumber and the set of courses that student takes. Each operation of
 TreeBuilder is mirrored here as a function on this view, and the properties
 the tree is built for (search-tree order, the key set, the key-to-courses map,
 merge on a repeated key, the ascending dump) are lemmas about those functions.
 */
module CourseTree {
  import Rendering

  datatype Option<T> = None | Some(value: T)

  datatype Tree = Nil | Node(bNumber: int, courses: set<string>, left: Tree, right: Tree)

  /** A tree holding one student and no children, as a freshly built node is. */
  function Leaf(bNumber: int, courses: set<string>): Tree
  {
    Node(bNumber, courses, Nil, Nil)
  }

  function Keys(t: Tree): set<int>
  {
    match t
    case Nil => {}
    case Node(k, _, l, r) => Keys(l) + {k} + Keys(r)
  }

  /** Number of nodes. */
  function Size(t: Tree): nat
  {
    match t
    case Nil => 0
    case Node(_, _, l, r) => Size(l) + 1 + Size(r)
  }

  /** Strict search-tree order: smaller keys to the left, greater keys to the right. */
  predicate Ordered(t: Tree)
  {
    match t
    case Nil => true
    case Node(k, _, l, r) =>
      && (forall x | x in Keys(l) :: x < k)
      && (forall x | x in Keys(r) :: k < x)
      && Ordered(l)
      && Ordered(r)
  }

  /** The students of the tree and their courses. */
  function Courses(t: Tree): (m: map<int, set<string>>)
    ensures m.Keys == Keys(t)
  {
    match t
    case Nil => map[]
    case Node(k, c, l, r) => (Courses(l) + Courses(r))[k := c]
  }

  /**
   The descent of `TreeBuilder.lookup`: the courses at the first node on the
   search path holding `k`. Only keys of the tree are ever found.
   */
  function Find(t: Tree, k: int): (found: Option<set<string>>)
    ensures found.Some? ==> k in Keys(t)
  {
    match t
    case Nil => None
    case Node(key, c, l, r) =>
      if key == k then Some(c)
      else if key > k then Find(l, k)
      else Find(r, k)
  }

  /**
   The effect of `TreeBuilder.traverseAndAdd`: descend by key; at an empty slot
   hang the added node (with whatever it carries below it); at an equal key
   merge the added node's courses into the one found. Afterwards a lookup of
   the added key sees the added courses, united with any it had before.
   */
  function TraverseAndAdd(root: Tree, nodeToAdd: Tree): (result: Tree)
    requires nodeToAdd.Node?
    ensures Find(result, nodeToAdd.bNumber) ==
            match Find(root, nodeToAdd.bNumber)
            case Some(c) => Some(c + nodeToAdd.courses)
            case None => Some(nodeToAdd.courses)
  {
    match root
    case Nil => nodeToAdd
    case Node(k, c, l, r) =>
      if nodeToAdd.bNumber < k then Node(k, c, TraverseAndAdd(l, nodeToAdd), r)
      else if nodeToAdd.bNumber > k then Node(k, c, l, TraverseAndAdd(r, nodeToAdd))
      else Node(k, c + nodeToAdd.courses, l, r)
  }

  /**
   The effect of `TreeBuilder.delete`: remove one course from the node the
   lookup descent finds. Afterwards a lookup of `k` sees that course gone.
   */
  function Delete(t: Tree, k: int, course: string): (result: Tree)
    ensures Find(result, k) ==
            match Find(t, k)
            case Some(c) => Some(c - {course})
            case None => None
  {
    match t
    case Nil => Nil
    case Node(key, c, l, r) =>
      if key == k then Node(key, c - {course}, l, r)
      else if key > k then Node(key, c, Delete(l, k, course), r)
      else Node(key, c, l, Delete(r, k, course))
  }

  /** The nodes as (bNumber, courses) pairs: left subtree, then the node, then the right subtree. */
  function InOrder(t: Tree): seq<(int, set<string>)>
  {
    match t
    case Nil => []
    case Node(k, c, l, r) => InOrder(l) + [(k, c)] + InOrder(r)
  }

  /** The lines `printInAscendingOrder` stores, one rendered node after another: one line per node. */
  function Dump(t: Tree): (lines: seq<string>)
    ensures |lines| == Size(t)
  {
    match t
    case Nil => []
    case Node(k, c, l, r) => Dump(l) + [Rendering.Render(k, c)] + Dump(r)
  }

  predicate StrictlyAscending(s: seq<(int, set<string>)>)
  {
    forall i, j | 0 <= i < j < |s| :: s[i].0 < s[j].0
  }

  // ---------------------------------------------------------------------------
  // Insertion

  /** Adding a node keeps every key and gains the added subtree's keys exactly when the descent finds no equal key. */
  lemma {:induction false} TraverseAndAddKeys(root: Tree, nodeToAdd: Tree)
    requires nodeToAdd.Node?
    ensures Keys(TraverseAndAdd(root, nodeToAdd)) ==
            if Find(root, nodeToAdd.bNumber).Some? then Keys(root) else Keys(root) + Keys(nodeToAdd)
  {
    match root
    case Nil =>
    case Node(k, c, l, r) =>
      if nodeToAdd.bNumber < k {
        TraverseAndAddKeys(l, nodeToAdd);
      } else if nodeToAdd.bNumber > k {
        TraverseAndAddKeys(r, nodeToAdd);
      }
  }

  /** Adding a single fresh node to an ordered tree keeps it ordered. */
  lemma {:induction false} AddKeepsOrder(root: Tree, k: int, c: set<string>)
    requires Ordered(root)
    ensures Ordered(TraverseAndAdd(root, Leaf(k, c)))
  {
    match root
    case Nil =>
    case Node(key, _, l, r) =>
      if k < key {
        AddKeepsOrder(l, k, c);
        TraverseAndAddKeys(l, Leaf(k, c));
      } else if k > key {
        AddKeepsOrder(r, k, c);
        TraverseAndAddKeys(r, Leaf(k, c));
      }
  }

  /** In an ordered tree the lookup descent finds a key exactly when the tree holds it, with its courses. */
  lemma {:induction false} FindInOrdered(t: Tree, k: int)
    requires Ordered(t)
    ensures Find(t, k) == if k in Courses(t) then Some(Courses(t)[k]) else None
  {
    match t
    case Nil =>
    case Node(key, c, l, r) =>
      if k < key {
        FindInOrdered(l, k);
        assert k !in Keys(r);
      } else if k > key {
        FindInOrdered(r, k);
        assert k !in Keys(l);
      }
  }

  /** Updating a key held only on the left side of a union commutes with the union and the node's own entry. */
  lemma UpdateBelowLeft(ml: map<int, set<string>>, mr: map<int, set<string>>, key: int, kc: set<string>, k: int, v: set<string>)
    requires k !in mr && k != key
    ensures (ml[k := v] + mr)[key := kc] == (ml + mr)[key := kc][k := v]
  {
  }

  lemma UpdateBelowRight(ml: map<int, set<string>>, mr: map<int, set<string>>, key: int, kc: set<string>, k: int, v: set<string>)
    requires k != key
    ensures (ml + mr[k := v])[key := kc] == (ml + mr)[key := kc][k := v]
  {
  }

  /**
   Adding one node to an ordered tree: on a key already present that
   student's courses become the union, on a new key the tree gains exactly
   that student with exactly those courses; nobody else changes.
   */
  lemma {:induction false} AddUpdatesCourses(root: Tree, k: int, c: set<string>)
    requires Ordered(root)
    ensures Courses(TraverseAndAdd(root, Leaf(k, c))) ==
            Courses(root)[k := if k in Courses(root) then Courses(root)[k] + c else c]
  {
    match root
    case Nil =>
    case Node(key, kc, l, r) =>
      if k < key {
        AddUpdatesCourses(l, k, c);
        assert k !in Keys(r);
        var v := if k in Courses(l) then Courses(l)[k] + c else c;
        UpdateBelowLeft(Courses(l), Courses(r), key, kc, k, v);
      } else if k > key {
        AddUpdatesCourses(r, k, c);
        assert k !in Keys(l);
        var v := if k in Courses(r) then Courses(r)[k] + c else c;
        UpdateBelowRight(Courses(l), Courses(r), key, kc, k, v);
      }
  }

  /** Adding one node to an ordered tree creates a node exactly when the key is new. */
  lemma {:induction false} AddNodeCount(root: Tree, k: int, c: set<string>)
    requires Ordered(root)
    ensures Size(TraverseAndAdd(root, Leaf(k, c))) == if k in Keys(root) then Size(root) else Size(root) + 1
  {
    match root
    case Nil =>
    case Node(key, kc, l, r) =>
      if k < key {
        AddNodeCount(l, k, c);
        assert k !in Keys(r);
      } else if k > key {
        AddNodeCount(r, k, c);
        assert k !in Keys(l);
      }
  }

  /** Adding a key that is already present merges and leaves the key set as it was. */
  lemma {:induction false} AddExistingKey(root: Tree, k: int, c: set<string>)
    requires Ordered(root) && k in Keys(root)
    ensures Keys(TraverseAndAdd(root, Leaf(k, c))) == Keys(root)
    ensures Courses(TraverseAndAdd(root, Leaf(k, c)))[k] == Courses(root)[k] + c
    ensures Size(TraverseAndAdd(root, Leaf(k, c))) == Size(root)
  {
    AddUpdatesCourses(root, k, c);
    AddNodeCount(root, k, c);
  }

  /** Adding a new key grows the key set by exactly that key and adds one node. */
  lemma {:induction false} AddFreshKey(root: Tree, k: int, c: set<string>)
    requires Ordered(root) && k !in Keys(root)
    ensures Keys(TraverseAndAdd(root, Leaf(k, c))) == Keys(root) + {k}
    ensures Courses(TraverseAndAdd(root, Leaf(k, c)))[k] == c
    ensures Size(TraverseAndAdd(root, Leaf(k, c))) == Size(root) + 1
  {
    AddUpdatesCourses(root, k, c);
    AddNodeCount(root, k, c);
  }

  // ---------------------------------------------------------------------------
  // Course deletion

  /** When the lookup descent does not find the key, deleting changes nothing. */
  lemma {:induction false} DeleteAbsent(t: Tree, k: int, course: string)
    requires Find(t, k).None?
    ensures Delete(t, k, course) == t
  {
    match t
    case Nil =>
    case Node(key, _, l, r) =>
      if key > k {
        DeleteAbsent(l, k, course);
      } else if key < k {
        DeleteAbsent(r, k, course);
      }
  }

  /** Deleting never changes the shape or the keys. */
  lemma {:induction false} DeleteKeepsKeys(t: Tree, k: int, course: string)
    ensures Keys(Delete(t, k, course)) == Keys(t)
    ensures Size(Delete(t, k, course)) == Size(t)
  {
    match t
    case Nil =>
    case Node(key, _, l, r) =>
      if key > k {
        DeleteKeepsKeys(l, k, course);
      } else if key < k {
        DeleteKeepsKeys(r, k, course);
      }
  }

  /** Deleting keeps an ordered tree ordered. */
  lemma {:induction false} DeleteKeepsOrder(t: Tree, k: int, course: string)
    requires Ordered(t)
    ensures Ordered(Delete(t, k, course))
  {
    match t
    case Nil =>
    case Node(key, _, l, r) =>
      if key > k {
        DeleteKeepsOrder(l, k, course);
        DeleteKeepsKeys(l, k, course);
      } else if key < k {
        DeleteKeepsOrder(r, k, course);
        DeleteKeepsKeys(r, k, course);
      }
  }

  /** Deleting a course of a student present in an ordered tree changes that student's courses and nobody else's. */
  lemma {:induction false} DeletePresent(t: Tree, k: int, course: string)
    requires Ordered(t) && k in Keys(t)
    ensures Courses(Delete(t, k, course)) == Courses(t)[k := Courses(t)[k] - {course}]
  {
    match t
    case Node(key, kc, l, r) =>
      if key > k {
        assert k !in Keys(r);
        DeletePresent(l, k, course);
        UpdateBelowLeft(Courses(l), Courses(r), key, kc, k, Courses(l)[k] - {course});
      } else if key < k {
        assert k !in Keys(l);
        DeletePresent(r, k, course);
        UpdateBelowRight(Courses(l), Courses(r), key, kc, k, Courses(r)[k] - {course});
      }
  }

  /**
   Deleting from an ordered tree removes the one course from the one student
   and keeps the student, even with no course left; everyone else keeps their
   courses, and an absent student means no change at all.
   */
  lemma {:induction false} DeleteRemovesCourse(t: Tree, k: int, course: string)
    requires Ordered(t)
    ensures Courses(Delete(t, k, course)) ==
            if k in Courses(t) then Courses(t)[k := Courses(t)[k] - {course}] else Courses(t)
  {
    FindInOrdered(t, k);
    if k in Courses(t) {
      DeletePresent(t, k, course);
    } else {
      DeleteAbsent(t, k, course);
    }
  }

  // ---------------------------------------------------------------------------
  // In-order dump

  /** The in-order listing has one entry per node, drawn from the tree's own keys and courses. */
  lemma {:induction false} InOrderEntries(t: Tree)
    ensures |InOrder(t)| == Size(t)
    ensures forall i | 0 <= i < |InOrder(t)| :: InOrder(t)[i].0 in Keys(t)
    ensures forall k | k in Keys(t) :: exists i | 0 <= i < |InOrder(t)| :: InOrder(t)[i].0 == k
  {
    match t
    case Nil =>
    case Node(key, c, l, r) =>
      InOrderEntries(l);
      InOrderEntries(r);
      var s := InOrder(t);
      assert s == InOrder(l) + [(key, c)] + InOrder(r);
      forall k | k in Keys(t) ensures exists i | 0 <= i < |s| :: s[i].0 == k {
        if k in Keys(l) {
          var i :| 0 <= i < |InOrder(l)| && InOrder(l)[i].0 == k;
          assert s[i].0 == k;
        } else if k == key {
          assert s[|InOrder(l)|].0 == k;
        } else {
          var i :| 0 <= i < |InOrder(r)| && InOrder(r)[i].0 == k;
          assert s[|InOrder(l)| + 1 + i].0 == k;
        }
      }
  }

  lemma AscendingAround(sl: seq<(int, set<string>)>, x: (int, set<string>), sr: seq<(int, set<string>)>)
    requires StrictlyAscending(sl) && StrictlyAscending(sr)
    requires forall i | 0 <= i < |sl| :: sl[i].0 < x.0
    requires forall i | 0 <= i < |sr| :: x.0 < sr[i].0
    ensures StrictlyAscending(sl + [x] + sr)
  {
    var s := sl + [x] + sr;
    var n := |sl|;
    forall i, j | 0 <= i < j < |s| ensures s[i].0 < s[j].0 {
      if j < n {
        assert s[i] == sl[i] && s[j] == sl[j];
      } else if i > n {
        assert s[i] == sr[i - n - 1] && s[j] == sr[j - n - 1];
      } else if i < n && j > n {
        assert s[i] == sl[i] && s[j] == sr[j - n - 1];
      } else if i < n {
        assert s[i] == sl[i];
      } else {
        assert s[j] == sr[j - n - 1];
      }
    }
  }

  /** On an ordered tree the in-order listing is strictly ascending by bNumber. */
  lemma {:induction false} InOrderAscending(t: Tree)
    requires Ordered(t)
    ensures StrictlyAscending(InOrder(t))
  {
    match t
    case Nil =>
    case Node(key, c, l, r) =>
      InOrderAscending(l);
      InOrderAscending(r);
      InOrderEntries(l);
      InOrderEntries(r);
      AscendingAround(InOrder(l), (key, c), InOrder(r));
  }

  /** The in-order listing of an ordered tree pairs each student with their own courses. */
  lemma {:induction false} InOrderCourses(t: Tree)
    requires Ordered(t)
    ensures forall i | 0 <= i < |InOrder(t)| ::
              InOrder(t)[i].0 in Courses(t) && InOrder(t)[i].1 == Courses(t)[InOrder(t)[i].0]
  {
    match t
    case Nil =>
    case Node(key, c, l, r) =>
      InOrderCourses(l);
      InOrderCourses(r);
      InOrderEntries(l);
      InOrderEntries(r);
      var sl, sr := InOrder(l), InOrder(r);
      var s := InOrder(t);
      var n := |sl|;
      assert s == sl + [(key, c)] + sr;
      forall i | 0 <= i < |s| ensures s[i].0 in Courses(t) && s[i].1 == Courses(t)[s[i].0] {
        if i < n {
          assert s[i] == sl[i] && sl[i].0 in Keys(l);
          assert sl[i].0 < key;
          assert sl[i].0 !in Keys(r);
        } else if i > n {
          assert s[i] == sr[i - n - 1] && sr[i - n - 1].0 in Keys(r);
          assert sr[i - n - 1].0 != key;
        }
      }
  }

  /** Line i renders entry i of the listing. */
  predicate RendersEach(d: seq<string>, s: seq<(int, set<string>)>)
  {
    |d| == |s| && forall i | 0 <= i < |d| :: d[i] == Rendering.Render(s[i].0, s[i].1)
  }

  /** Rendering entry by entry carries over to `left + [node] + right`. */
  lemma RendersAround(dl: seq<string>, sl: seq<(int, set<string>)>, line: string, x: (int, set<string>),
                      dr: seq<string>, sr: seq<(int, set<string>)>)
    requires RendersEach(dl, sl) && RendersEach(dr, sr) && line == Rendering.Render(x.0, x.1)
    ensures RendersEach(dl + [line] + dr, sl + [x] + sr)
  {
    var d, s, n := dl + [line] + dr, sl + [x] + sr, |sl|;
    forall i | 0 <= i < |d| ensures d[i] == Rendering.Render(s[i].0, s[i].1) {
      if i < n {
        assert d[i] == dl[i] && s[i] == sl[i];
      } else if i > n {
        assert d[i] == dr[i - n - 1] && s[i] == sr[i - n - 1];
      }
    }
  }

  /** The dump is the in-order listing, each entry rendered as one line. */
  lemma {:induction false} DumpRendersInOrder(t: Tree)
    ensures |Dump(t)| == |InOrder(t)|
    ensures forall i | 0 <= i < |Dump(t)| :: Dump(t)[i] == Rendering.Render(InOrder(t)[i].0, InOrder(t)[i].1)
  {
    match t
    case Nil =>
    case Node(key, c, l, r) =>
      DumpRendersInOrder(l);
      DumpRendersInOrder(r);
      RendersAround(Dump(l), InOrder(l), Rendering.Render(key, c), (key, c), Dump(r), InOrder(r));
  }

  /**
   The dump of an ordered tree has exactly one line per student, the lines in
   strictly ascending bNumber order, and the key written on line i is that of
   the i-th student in ascending order. An empty tree dumps nothing.
   */
  lemma DumpOneLinePerStudentAscending(t: Tree)
    requires Ordered(t)
    ensures |Dump(t)| == |Keys(t)|
    ensures t == Nil ==> Dump(t) == []
    ensures forall i, j | 0 <= i < j < |Dump(t)| ::
              Rendering.ParseInt(Rendering.KeyField(Dump(t)[i])) < Rendering.ParseInt(Rendering.KeyField(Dump(t)[j]))
  {
    DumpRendersInOrder(t);
    InOrderAscending(t);
    InOrderEntries(t);
    OrderedSizeIsKeyCount(t);
    var d, s := Dump(t), InOrder(t);
    forall i | 0 <= i < |d| ensures Rendering.ParseInt(Rendering.KeyField(d[i])) == s[i].0 {
      Rendering.RenderFields(s[i].0, s[i].1);
    }
  }

  /** In an ordered tree no two nodes share a key, so there are as many nodes as keys. */
  lemma {:induction false} OrderedSizeIsKeyCount(t: Tree)
    requires Ordered(t)
    ensures Size(t) == |Keys(t)|
  {
    match t
    case Nil =>
    case Node(k, _, l, r) =>
      OrderedSizeIsKeyCount(l);
      OrderedSizeIsKeyCount(r);
      assert Keys(l) !! Keys(r) && k !in Keys(l) && k !in Keys(r) by {
        forall x | x in Keys(l) ensures x !in Keys(r) && x != k {
          assert x < k;
        }
      }
      CardinalityAround(Keys(l), k, Keys(r));
  }

  lemma CardinalityAround(a: set<int>, k: int, b: set<int>)
    requires a !! b && k !in a && k !in b
    ensures |a + {k} + b| == |a| + 1 + |b|
  {
    assert |a + {k}| == |a| + 1;
    assert (a + {k}) !! b;
  }

  /** Appending the dumps of the left subtree, the node's line and the right subtree, in that order, appends the dump of the whole tree. */
  lemma DumpSteps(t: Tree, before: seq<string>, afterLeft: seq<string>, line: string, after: seq<string>)
    requires t.Node?
    requires afterLeft == before + Dump(t.left)
    requires line == Rendering.Render(t.bNumber, t.courses)
    requires after == afterLeft + [line] + Dump(t.right)
    ensures after == before + Dump(t)
  {
    var dl, dr := Dump(t.left), Dump(t.right);
    assert Dump(t) == dl + [line] + dr;
    assert after == before + (dl + [line] + dr) by {
      AppendAssoc(before, dl, line, dr);
    }
  }

  lemma AppendAssoc<T>(a: seq<T>, b: seq<T>, x: T, c: seq<T>)
    ensures a + b + [x] + c == a + (b + [x] + c)
  {
  }
}
