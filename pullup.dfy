/**
 * pullUp on the entry tree: a red entry `x` under a red parent is lifted
 * with one rotation (outer grandchild) or two (inner grandchild). These
 * lemmas state the resulting shape once, independently of the rotations,
 * and what it does to the lookup path.
 */
module TreePullUp {
  import opened TreeShapes
  import opened TreeSearch
  import opened TreeLinks

  /** `x` is the left child of the left child of `s`. */
  predicate OuterLeft(s: Tree, x: int) {
    s.Node? && s.left.Node? && s.left.left.Node? && s.left.left.id == x
  }

  /** `x` is the right child of the right child of `s`. */
  predicate OuterRight(s: Tree, x: int) {
    s.Node? && s.right.Node? && s.right.right.Node? && s.right.right.id == x
  }

  /** `x` is the right child of the left child of `s`. */
  predicate InnerLeft(s: Tree, x: int) {
    s.Node? && s.left.Node? && s.left.right.Node? && s.left.right.id == x
  }

  /** `x` is the left child of the right child of `s`. */
  predicate InnerRight(s: Tree, x: int) {
    s.Node? && s.right.Node? && s.right.left.Node? && s.right.left.id == x
  }

  predicate GrandChild(s: Tree, x: int) {
    OuterLeft(s, x) || OuterRight(s, x) || InnerLeft(s, x) || InnerRight(s, x)
  }

  predicate Inner(s: Tree, x: int) {
    InnerLeft(s, x) || InnerRight(s, x)
  }

  /**
   * The subtree of the grandparent after pullUp(x): an outer grandchild's
   * parent moves to the top, an inner grandchild moves to the top itself
   * with its parent and grandparent as children.
   */
  function PulledUp(s: Tree, x: int): Tree
    requires GrandChild(s, x)
  {
    if OuterLeft(s, x) then RotatedRight(s)
    else if OuterRight(s, x) then RotatedLeft(s)
    else if InnerLeft(s, x) then
      var p, m := s.left, s.left.right;
      Node(Node(p.left, p.id, m.left), x, Node(m.right, s.id, s.right))
    else
      var p, m := s.right, s.right.left;
      Node(Node(s.left, s.id, m.left), x, Node(m.right, p.id, p.right))
  }

  lemma Regroup3(a: seq<int>, p: int, b: seq<int>, x: int, c: seq<int>, g: int, d: seq<int>)
    ensures a + [p] + (b + [x] + c) + [g] + d == (a + [p] + b) + [x] + (c + [g] + d)
    ensures a + [g] + (b + [x] + c + [p] + d) == (a + [g] + b) + [x] + (c + [p] + d)
  {
  }

  /** pullUp keeps the entries of the subtree in order. */
  lemma PulledUpIds(s: Tree, x: int)
    requires GrandChild(s, x)
    ensures Ids(PulledUp(s, x)) == Ids(s)
  {
    if OuterLeft(s, x) {
      RotateRightIds(s);
    } else if OuterRight(s, x) {
      RotateLeftIds(s);
    } else if InnerLeft(s, x) {
      var p, m := s.left, s.left.right;
      assert Ids(m) == Ids(m.left) + [x] + Ids(m.right);
      assert Ids(p) == Ids(p.left) + [p.id] + Ids(m);
      Regroup3(Ids(p.left), p.id, Ids(m.left), x, Ids(m.right), s.id, Ids(s.right));
    } else {
      var p, m := s.right, s.right.left;
      assert Ids(m) == Ids(m.left) + [x] + Ids(m.right);
      assert Ids(p) == Ids(m) + [p.id] + Ids(p.right);
      Regroup3(Ids(s.left), s.id, Ids(m.left), x, Ids(m.right), p.id, Ids(p.right));
    }
  }

  /** The first rotation of an inner pullUp, left case: roL at the parent, then roR at the grandparent. */
  lemma InnerLeftSteps(t: Tree, g: int, x: int)
    requires Distinct(Ids(t)) && g in Ids(t) && InnerLeft(Find(t, g), x)
    ensures var s := Find(t, g); var p := s.left.id;
      && p in Ids(t) && p != g && Find(t, p) == s.left
      && Ids(RotatedLeft(s.left)) == Ids(Find(t, p))
      && Find(Replace(t, p, RotatedLeft(s.left)), g) == Node(RotatedLeft(s.left), g, s.right)
      && Replace(Replace(t, p, RotatedLeft(s.left)), g, RotatedRight(Node(RotatedLeft(s.left), g, s.right)))
         == Replace(t, g, PulledUp(s, x))
  {
    var s := Find(t, g);
    var p := s.left.id;
    var s1 := RotatedLeft(s.left);
    ChildFind(t, g);
    FindSubset(t, g);
    DistinctFind(t, g);
    DistinctNode(s.left, g, s.right);
    DistinctNode(s.left.left, p, s.left.right);
    assert p in Ids(s.left);
    RotateLeftIds(s.left);
    ReplaceFindAncestor(t, g, p, s1);
    ReplaceTwice(t, g, p, s1, RotatedRight(Node(s1, g, s.right)));
    assert x in Ids(s.left.right) && x in Ids(s.left);
    assert s.left.left.Node? ==> s.left.left.id in Ids(s.left.left);
    assert s.right.Node? && s.right.right.Node? ==> s.right.right.id in Ids(s.right);
    assert !OuterLeft(s, x) && !OuterRight(s, x);
  }

  /** The mirror image of InnerLeftSteps: roR at the parent, then roL at the grandparent. */
  lemma InnerRightSteps(t: Tree, g: int, x: int)
    requires Distinct(Ids(t)) && g in Ids(t) && InnerRight(Find(t, g), x)
    ensures var s := Find(t, g); var p := s.right.id;
      && p in Ids(t) && p != g && Find(t, p) == s.right
      && Ids(RotatedRight(s.right)) == Ids(Find(t, p))
      && Find(Replace(t, p, RotatedRight(s.right)), g) == Node(s.left, g, RotatedRight(s.right))
      && Replace(Replace(t, p, RotatedRight(s.right)), g, RotatedLeft(Node(s.left, g, RotatedRight(s.right))))
         == Replace(t, g, PulledUp(s, x))
  {
    var s := Find(t, g);
    var p := s.right.id;
    var s1 := RotatedRight(s.right);
    ChildFind(t, g);
    FindSubset(t, g);
    DistinctFind(t, g);
    DistinctNode(s.left, g, s.right);
    DistinctNode(s.right.left, p, s.right.right);
    assert p in Ids(s.right);
    RotateRightIds(s.right);
    ReplaceFindAncestor(t, g, p, s1);
    ReplaceTwice(t, g, p, s1, RotatedLeft(Node(s.left, g, s1)));
    assert x in Ids(s.right.left) && x in Ids(s.right);
    assert s.right.right.Node? ==> s.right.right.id in Ids(s.right.right);
    assert s.left.Node? && s.left.left.Node? ==> s.left.left.id in Ids(s.left);
    assert !OuterLeft(s, x) && !OuterRight(s, x) && !InnerLeft(s, x);
  }

  /** An outer pullUp leaves the subtree of `x` alone and `x` on the lookup path. */
  lemma OuterLeftPath(t: Tree, g: int, x: int, k: int, K: seq<int>)
    requires Ascending(Ids(t), K) && OnPath(t, x, k, K) && g in Ids(t) && OuterLeft(Find(t, g), x)
    ensures var t' := Replace(t, g, PulledUp(Find(t, g), x));
      Ids(t') == Ids(t) && OnPath(t', x, k, K) && Find(t', x) == Find(t, x)
  {
    var s := Find(t, g);
    var S := PulledUp(s, x);
    var t' := Replace(t, g, S);
    var p := s.left.id;
    AscendingDistinct(Ids(t), K);
    PulledUpIds(s, x);
    SameIdsReplace(t, g, S);
    ChildFind(t, g);
    FindSubset(t, g);
    assert x in Ids(s.left.left);
    assert Ids(s.left) == Ids(s.left.left) + [p] + Ids(s.left.right);
    assert Ids(s) == Ids(s.left) + [g] + Ids(s.right);
    assert p in Ids(s) && x in Ids(s.left) && x in Ids(s);
    ChildFind(t, p);
    DistinctFind(t, g);
    DistinctNode(s.left, g, s.right);
    DistinctNode(s.left.left, p, s.left.right);
    OnPathUp(t, x, g, k, K);
    OnPathReplace(t, g, S, k, K);
    OnPathSide(t, x, p, k, K);
    FindReplaced(t, g, S);
    OnPathChild(t', p, k, K);
    ChildFind(t', p);
  }

  /** The mirror image of OuterLeftPath. */
  lemma OuterRightPath(t: Tree, g: int, x: int, k: int, K: seq<int>)
    requires Ascending(Ids(t), K) && OnPath(t, x, k, K) && g in Ids(t) && OuterRight(Find(t, g), x)
    requires !OuterLeft(Find(t, g), x)
    ensures var t' := Replace(t, g, PulledUp(Find(t, g), x));
      Ids(t') == Ids(t) && OnPath(t', x, k, K) && Find(t', x) == Find(t, x)
  {
    var s := Find(t, g);
    var S := PulledUp(s, x);
    var t' := Replace(t, g, S);
    var p := s.right.id;
    AscendingDistinct(Ids(t), K);
    PulledUpIds(s, x);
    SameIdsReplace(t, g, S);
    ChildFind(t, g);
    FindSubset(t, g);
    assert p in Ids(s) && x in Ids(s.right) && x in Ids(s);
    ChildFind(t, p);
    DistinctFind(t, g);
    DistinctNode(s.left, g, s.right);
    DistinctNode(s.right.left, p, s.right.right);
    OnPathUp(t, x, g, k, K);
    OnPathReplace(t, g, S, k, K);
    OnPathSide(t, x, p, k, K);
    FindReplaced(t, g, S);
    OnPathChild(t', p, k, K);
    ChildFind(t', p);
  }

  /** Below an inner pullUp the lookup for `k` passes at most one more entry. */
  lemma InnerLeftLen(s: Tree, x: int, k: int, K: seq<int>)
    requires InnerLeft(s, x) && !OuterLeft(s, x) && !OuterRight(s, x)
    requires 0 <= s.id < |K| && 0 <= s.left.id < |K| && 0 <= x < |K|
    requires k < K[s.id] && K[s.left.id] < k
    ensures SearchLen(PulledUp(s, x), k, K) <= SearchLen(s.left.right, k, K) + 1
  {
    var p, m := s.left, s.left.right;
    assert PulledUp(s, x) == Node(Node(p.left, p.id, m.left), x, Node(m.right, s.id, s.right));
  }

  /** The mirror image of InnerLeftLen. */
  lemma InnerRightLen(s: Tree, x: int, k: int, K: seq<int>)
    requires InnerRight(s, x) && !OuterLeft(s, x) && !OuterRight(s, x) && !InnerLeft(s, x)
    requires 0 <= s.id < |K| && 0 <= s.right.id < |K| && 0 <= x < |K|
    requires K[s.id] < k && k < K[s.right.id]
    ensures SearchLen(PulledUp(s, x), k, K) <= SearchLen(s.right.left, k, K) + 1
  {
    var p, m := s.right, s.right.left;
    assert PulledUp(s, x) == Node(Node(s.left, s.id, m.left), x, Node(m.right, p.id, p.right));
  }

  /** An inner pullUp puts the subtree of `x` where its grandparent's was, keeping `x` on the lookup path. */
  lemma InnerLeftFind(t: Tree, g: int, x: int, k: int, K: seq<int>)
    requires Ascending(Ids(t), K) && OnPath(t, x, k, K) && g in Ids(t) && InnerLeft(Find(t, g), x)
    requires !OuterLeft(Find(t, g), x) && !OuterRight(Find(t, g), x)
    ensures var t' := Replace(t, g, PulledUp(Find(t, g), x));
      && Ids(t') == Ids(t) && OnPath(t', x, k, K) && Find(t', x) == PulledUp(Find(t, g), x)
  {
    var s := Find(t, g);
    var S := PulledUp(s, x);
    AscendingDistinct(Ids(t), K);
    PulledUpIds(s, x);
    SameIdsReplace(t, g, S);
    ChildFind(t, g);
    assert x in Ids(s);
    OnPathUp(t, x, g, k, K);
    OnPathReplace(t, g, S, k, K);
    FindReplaced(t, g, S);
  }

  /** The mirror image of InnerLeftFind. */
  lemma InnerRightFind(t: Tree, g: int, x: int, k: int, K: seq<int>)
    requires Ascending(Ids(t), K) && OnPath(t, x, k, K) && g in Ids(t) && InnerRight(Find(t, g), x)
    requires !OuterLeft(Find(t, g), x) && !OuterRight(Find(t, g), x) && !InnerLeft(Find(t, g), x)
    ensures var t' := Replace(t, g, PulledUp(Find(t, g), x));
      && Ids(t') == Ids(t) && OnPath(t', x, k, K) && Find(t', x) == PulledUp(Find(t, g), x)
  {
    var s := Find(t, g);
    var S := PulledUp(s, x);
    AscendingDistinct(Ids(t), K);
    PulledUpIds(s, x);
    SameIdsReplace(t, g, S);
    ChildFind(t, g);
    assert x in Ids(s);
    OnPathUp(t, x, g, k, K);
    OnPathReplace(t, g, S, k, K);
    FindReplaced(t, g, S);
  }

  /** The keys that send the lookup for `k` from the grandparent through the parent to `x`. */
  lemma InnerLeftKeys(t: Tree, g: int, x: int, k: int, K: seq<int>)
    requires Ascending(Ids(t), K) && OnPath(t, x, k, K) && g in Ids(t) && InnerLeft(Find(t, g), x)
    ensures var s := Find(t, g);
      && 0 <= g < |K| && 0 <= s.left.id < |K| && 0 <= x < |K| && s.id == g
      && k < K[g] && K[s.left.id] < k && Find(t, x) == s.left.right
  {
    var s := Find(t, g);
    var p := s.left.id;
    AscendingDistinct(Ids(t), K);
    ChildFind(t, g);
    FindSubset(t, g);
    assert x in Ids(s.left.right);
    assert Ids(s.left) == Ids(s.left.left) + [p] + Ids(s.left.right);
    assert Ids(s) == Ids(s.left) + [g] + Ids(s.right);
    assert p in Ids(s) && x in Ids(s.left) && x in Ids(s);
    ChildFind(t, p);
    DistinctFind(t, g);
    DistinctNode(s.left, g, s.right);
    DistinctNode(s.left.left, p, s.left.right);
    OnPathSide(t, x, g, k, K);
    OnPathSide(t, x, p, k, K);
    OnPathIn(t, x, k, K);
  }

  /** The mirror image of InnerLeftKeys. */
  lemma InnerRightKeys(t: Tree, g: int, x: int, k: int, K: seq<int>)
    requires Ascending(Ids(t), K) && OnPath(t, x, k, K) && g in Ids(t) && InnerRight(Find(t, g), x)
    ensures var s := Find(t, g);
      && 0 <= g < |K| && 0 <= s.right.id < |K| && 0 <= x < |K| && s.id == g
      && K[g] < k && k < K[s.right.id] && Find(t, x) == s.right.left
  {
    var s := Find(t, g);
    var p := s.right.id;
    AscendingDistinct(Ids(t), K);
    ChildFind(t, g);
    FindSubset(t, g);
    assert x in Ids(s.right.left);
    assert Ids(s.right) == Ids(s.right.left) + [p] + Ids(s.right.right);
    assert Ids(s) == Ids(s.left) + [g] + Ids(s.right);
    assert p in Ids(s) && x in Ids(s.right) && x in Ids(s);
    ChildFind(t, p);
    DistinctFind(t, g);
    DistinctNode(s.left, g, s.right);
    DistinctNode(s.right.left, p, s.right.right);
    OnPathSide(t, x, g, k, K);
    OnPathSide(t, x, p, k, K);
    OnPathIn(t, x, k, K);
  }

  /** Which of the four positions `x` holds, from the two child references on the way down to it. */
  lemma GrandPosition(s: Tree, q: Tree, p: int, x: int, lg: bool, rg: bool, lp: bool, rp: bool)
    requires s.Node? && q.Node? && q.id == p
    requires forall y :: y in Ids(s.left) ==> y !in Ids(s.right)
    requires lg == (s.left.Node? && s.left.id == p) && rg == (s.right.Node? && s.right.id == p) && lg != rg
    requires lp == (q.left.Node? && q.left.id == x) && rp == (q.right.Node? && q.right.id == x) && lp != rp
    requires (lg ==> q == s.left) && (rg ==> q == s.right)
    ensures GrandChild(s, x)
    ensures OuterLeft(s, x) <==> lg && lp
    ensures OuterRight(s, x) <==> rg && rp
    ensures InnerLeft(s, x) <==> lg && rp
    ensures InnerRight(s, x) <==> rg && lp
  {
    assert s.left.Node? && s.left.left.Node? ==> s.left.left.id in Ids(s.left);
    assert s.left.Node? && s.left.right.Node? ==> s.left.right.id in Ids(s.left);
    assert s.right.Node? && s.right.left.Node? ==> s.right.left.id in Ids(s.right);
    assert s.right.Node? && s.right.right.Node? ==> s.right.right.id in Ids(s.right);
  }

  /**
   * An entry two levels below the top has a grandparent, and the two child
   * references on the way down say which of the four positions it holds.
   */
  lemma GrandParent(t: Tree, L: seq<int>, R: seq<int>, P: seq<int>, x: int)
    requires Linked(t, NIL, L, R, P) && Distinct(Ids(t)) && x in Ids(t) && x != Root(t)
    requires 0 <= x < |P| && P[x] != Root(t)
    ensures 0 <= P[x] < |P| && P[x] in Ids(t) && P[P[x]] in Ids(t)
    ensures 0 <= P[x] < |L| && P[x] < |R| && 0 <= P[P[x]] < |L| && P[P[x]] < |R|
    ensures var p, g := P[x], P[P[x]];
      && GrandChild(Find(t, g), x)
      && (OuterLeft(Find(t, g), x) <==> L[g] == p && L[p] == x)
      && (OuterRight(Find(t, g), x) <==> R[g] == p && R[p] == x)
      && (InnerLeft(Find(t, g), x) <==> L[g] == p && R[p] == x)
      && (InnerRight(Find(t, g), x) <==> R[g] == p && L[p] == x)
  {
    ParentSide(t, L, R, P, x);
    var p := P[x];
    ParentSide(t, L, R, P, p);
    var g := P[p];
    ChildFind(t, g);
    DistinctFind(t, g);
    var s := Find(t, g);
    DistinctNode(s.left, g, s.right);
    GrandPosition(s, Find(t, p), p, x, L[g] == p, R[g] == p, L[p] == x, R[p] == x);
  }

  /** The tree between the two rotations of an inner pullUp: the parent has turned, so `x` hangs below the grandparent. */
  function InnerMid(t: Tree, g: int, x: int): Tree
    requires Inner(Find(t, g), x)
  {
    var s := Find(t, g);
    if InnerLeft(s, x) then Replace(t, s.left.id, RotatedLeft(s.left))
    else Replace(t, s.right.id, RotatedRight(s.right))
  }

  /**
   * Between the two rotations of an inner pullUp, `x` is the grandparent's
   * child on the side it came from, and the second rotation at the
   * grandparent completes the pullUp.
   */
  lemma InnerMidLinks(t: Tree, L: seq<int>, R: seq<int>, P: seq<int>, g: int, x: int)
    requires Distinct(Ids(t)) && g in Ids(t) && Inner(Find(t, g), x)
    requires Linked(InnerMid(t, g, x), NIL, L, R, P)
    ensures Ids(InnerMid(t, g, x)) == Ids(t)
    ensures 0 <= x < |P| && P[x] == g && 0 <= g < |R| && x != Root(InnerMid(t, g, x))
    ensures R[g] == x <==> InnerRight(Find(t, g), x)
    ensures var m := Find(InnerMid(t, g, x), g);
      && (InnerLeft(Find(t, g), x) ==>
            m.Node? && m.left.Node? && Replace(InnerMid(t, g, x), g, RotatedRight(m)) == Replace(t, g, PulledUp(Find(t, g), x)))
      && (InnerRight(Find(t, g), x) ==>
            m.Node? && m.right.Node? && Replace(InnerMid(t, g, x), g, RotatedLeft(m)) == Replace(t, g, PulledUp(Find(t, g), x)))
  {
    var s := Find(t, g);
    var mid := InnerMid(t, g, x);
    if InnerLeft(s, x) {
      InnerLeftSteps(t, g, x);
      SameIdsReplace(t, s.left.id, RotatedLeft(s.left));
    } else {
      InnerRightSteps(t, g, x);
      SameIdsReplace(t, s.right.id, RotatedRight(s.right));
    }
    FindIn(t, g);
    ChildParent(mid, L, R, P, g);
    DistinctFind(mid, g);
    var m := Find(mid, g);
    DistinctNode(m.left, g, m.right);
    assert m.left.Node? ==> m.left.id in Ids(m.left);
    assert m.right.Node? ==> m.right.id in Ids(m.right);
    assert mid.Node? ==> P[mid.id] == NIL;
  }

  /**
   * pullUp(x) keeps the entries and keeps `x` on the lookup path for `k`;
   * the lookup from `x` grows by at most one entry, and only for an inner
   * grandchild.
   */
  lemma PullUpPath(t: Tree, g: int, x: int, k: int, K: seq<int>)
    requires Ascending(Ids(t), K) && OnPath(t, x, k, K) && g in Ids(t) && GrandChild(Find(t, g), x)
    ensures var t' := Replace(t, g, PulledUp(Find(t, g), x));
      && Ids(t') == Ids(t) && OnPath(t', x, k, K)
      && SearchLen(Find(t', x), k, K) <= SearchLen(Find(t, x), k, K) + (if Inner(Find(t, g), x) then 1 else 0)
  {
    var s := Find(t, g);
    if OuterLeft(s, x) {
      OuterLeftPath(t, g, x, k, K);
    } else if OuterRight(s, x) {
      OuterRightPath(t, g, x, k, K);
    } else if InnerLeft(s, x) {
      InnerLeftFind(t, g, x, k, K);
      InnerLeftKeys(t, g, x, k, K);
      InnerLeftLen(s, x, k, K);
    } else {
      InnerRightFind(t, g, x, k, K);
      InnerRightKeys(t, g, x, k, K);
      InnerRightLen(s, x, k, K);
    }
  }

  /**
   * One step of findInsertPoint's repair at `x`, from `t` to `t'`: either
   * nothing moved or `x` was pulled up below `g`. The lookup still reaches
   * `x`, and twice what is left of it, plus one if `x` stayed red, grows by
   * at most one over the same count before, plus one if `x` was to be
   * pulled up.
   */
  lemma FixPath(t: Tree, t': Tree, red: bool, K: seq<int>, g: int, x: int, k: int, pulled: bool)
    requires Ascending(Ids(t), K) && OnPath(t, x, k, K)
    requires pulled ==> g in Ids(t) && GrandChild(Find(t, g), x) && t' == Replace(t, g, PulledUp(Find(t, g), x))
    requires pulled ==> (red <==> !Inner(Find(t, g), x))
    requires !pulled ==> t' == t
    ensures Ids(t') == Ids(t) && OnPath(t', x, k, K)
    ensures 2 * SearchLen(Find(t', x), k, K) + (if red then 1 else 0)
            <= 2 * SearchLen(Find(t, x), k, K) + (if pulled then 1 else 0) + 1
  {
    if pulled {
      PullUpPath(t, g, x, k, K);
    }
  }
}
