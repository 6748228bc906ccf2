/**
 * What MyTreeMap's reference rewiring does to the entry tree: the two
 * rotations (roR, roL) and hanging a new leaf under an entry, each as a
 * statement about the arena's references before and after.
 */
module TreeLinks {
  import opened TreeShapes

  /** Only the top of a replaced subtree can change the reference to the top of the whole tree. */
  lemma RootReplace(t: Tree, x: int, s: Tree)
    requires x in Ids(t)
    ensures Root(Replace(t, x, s)) == if x == Root(t) then Root(s) else Root(t)
  {
  }

  /** Frame conditions on the entries of `Node(Node(a, y, bT), top, c)` pass down to its parts. */
  lemma FramePiecesRight(a: Tree, y: int, bT: Tree, top: int, c: Tree,
                         L: seq<int>, R: seq<int>, P: seq<int>, L': seq<int>, R': seq<int>, P': seq<int>)
    requires y !in Ids(a) && y !in Ids(bT) && forall z :: z in Ids(a) ==> z !in Ids(bT)
    requires top !in Ids(Node(a, y, bT)) && top !in Ids(c) && forall z :: z in Ids(Node(a, y, bT)) ==> z !in Ids(c)
    requires forall z :: z in Ids(Node(Node(a, y, bT), top, c)) && z != y && z != top ==> SameChildren(z, L, R, L', R')
    requires forall z :: z in Ids(Node(Node(a, y, bT), top, c)) && z != y && z != top && z != Root(bT) ==> SameParent(z, P, P')
    ensures forall z :: z in Ids(a) ==> SameChildren(z, L, R, L', R') && SameParent(z, P, P')
    ensures forall z :: z in Ids(bT) ==> SameChildren(z, L, R, L', R')
    ensures forall z :: z in Ids(bT) && z != Root(bT) ==> SameParent(z, P, P')
    ensures forall z :: z in Ids(c) ==> SameChildren(z, L, R, L', R') && SameParent(z, P, P')
  {
    var inner := Node(a, y, bT);
    var whole := Node(inner, top, c);
    assert Ids(whole) == Ids(inner) + [top] + Ids(c);
    forall z | z in Ids(a) || z in Ids(bT)
      ensures z in Ids(whole) && z != y && z != top
    {
      assert z in Ids(inner);
    }
  }

  /** Frame conditions on the entries of `Node(a, top, Node(bT, y, c))` pass down to its parts. */
  lemma FramePiecesLeft(a: Tree, top: int, bT: Tree, y: int, c: Tree,
                        L: seq<int>, R: seq<int>, P: seq<int>, L': seq<int>, R': seq<int>, P': seq<int>)
    requires y !in Ids(c) && y !in Ids(bT) && forall z :: z in Ids(c) ==> z !in Ids(bT)
    requires top !in Ids(Node(bT, y, c)) && top !in Ids(a) && forall z :: z in Ids(Node(bT, y, c)) ==> z !in Ids(a)
    requires forall z :: z in Ids(Node(a, top, Node(bT, y, c))) && z != y && z != top ==> SameChildren(z, L, R, L', R')
    requires forall z :: z in Ids(Node(a, top, Node(bT, y, c))) && z != y && z != top && z != Root(bT) ==> SameParent(z, P, P')
    ensures forall z :: z in Ids(a) ==> SameChildren(z, L, R, L', R') && SameParent(z, P, P')
    ensures forall z :: z in Ids(bT) ==> SameChildren(z, L, R, L', R')
    ensures forall z :: z in Ids(bT) && z != Root(bT) ==> SameParent(z, P, P')
    ensures forall z :: z in Ids(c) ==> SameChildren(z, L, R, L', R') && SameParent(z, P, P')
  {
    var inner := Node(bT, y, c);
    var whole := Node(a, top, inner);
    assert Ids(whole) == Ids(a) + [top] + Ids(inner);
    forall z | z in Ids(c) || z in Ids(bT)
      ensures z in Ids(whole) && z != y && z != top
    {
      assert z in Ids(inner);
    }
  }

  /**
   * The references roR leaves inside the rotated subtree: the old left
   * child `y` on top with the old top `top` as its right child, which
   * adopts the inner grandchild `bT`.
   */
  lemma RotateRightLocal(a: Tree, y: int, bT: Tree, top: int, c: Tree, pp: int,
                         L: seq<int>, R: seq<int>, P: seq<int>, L': seq<int>, R': seq<int>, P': seq<int>)
    requires Linked(a, y, L, R, P) && Linked(bT, y, L, R, P) && Linked(c, top, L, R, P)
    requires Distinct(Ids(a)) && Distinct(Ids(bT)) && Distinct(Ids(c))
    requires y !in Ids(a) && y !in Ids(bT) && forall z :: z in Ids(a) ==> z !in Ids(bT)
    requires top !in Ids(Node(a, y, bT)) && top !in Ids(c) && forall z :: z in Ids(Node(a, y, bT)) ==> z !in Ids(c)
    requires forall z :: z in Ids(Node(Node(a, y, bT), top, c)) && z != y && z != top ==> SameChildren(z, L, R, L', R')
    requires forall z :: z in Ids(Node(Node(a, y, bT), top, c)) && z != y && z != top && z != Root(bT) ==> SameParent(z, P, P')
    requires 0 <= y < |L'| && y < |R'| && y < |P'| && P'[y] == pp && L'[y] == Root(a) && R'[y] == top
    requires 0 <= top < |L'| && top < |R'| && top < |P'| && P'[top] == y && L'[top] == Root(bT) && R'[top] == Root(c)
    requires bT.Node? ==> 0 <= bT.id < |P'| && P'[bT.id] == top
    ensures Linked(Node(a, y, Node(bT, top, c)), pp, L', R', P')
  {
    FramePiecesRight(a, y, bT, top, c, L, R, P, L', R', P');
    assert a.Node? ==> a.id in Ids(a);
    assert c.Node? ==> c.id in Ids(c);
    LinkedFrame(a, y, y, L, R, P, L', R', P');
    LinkedFrame(bT, y, top, L, R, P, L', R', P');
    LinkedFrame(c, top, top, L, R, P, L', R', P');
  }

  /** The mirror image of RotateRightLocal, for roL. */
  lemma RotateLeftLocal(a: Tree, top: int, bT: Tree, y: int, c: Tree, pp: int,
                        L: seq<int>, R: seq<int>, P: seq<int>, L': seq<int>, R': seq<int>, P': seq<int>)
    requires Linked(a, top, L, R, P) && Linked(bT, y, L, R, P) && Linked(c, y, L, R, P)
    requires Distinct(Ids(a)) && Distinct(Ids(bT)) && Distinct(Ids(c))
    requires y !in Ids(c) && y !in Ids(bT) && forall z :: z in Ids(c) ==> z !in Ids(bT)
    requires top !in Ids(Node(bT, y, c)) && top !in Ids(a) && forall z :: z in Ids(Node(bT, y, c)) ==> z !in Ids(a)
    requires forall z :: z in Ids(Node(a, top, Node(bT, y, c))) && z != y && z != top ==> SameChildren(z, L, R, L', R')
    requires forall z :: z in Ids(Node(a, top, Node(bT, y, c))) && z != y && z != top && z != Root(bT) ==> SameParent(z, P, P')
    requires 0 <= y < |L'| && y < |R'| && y < |P'| && P'[y] == pp && R'[y] == Root(c) && L'[y] == top
    requires 0 <= top < |L'| && top < |R'| && top < |P'| && P'[top] == y && R'[top] == Root(bT) && L'[top] == Root(a)
    requires bT.Node? ==> 0 <= bT.id < |P'| && P'[bT.id] == top
    ensures Linked(Node(Node(a, top, bT), y, c), pp, L', R', P')
  {
    FramePiecesLeft(a, top, bT, y, c, L, R, P, L', R', P');
    assert a.Node? ==> a.id in Ids(a);
    assert c.Node? ==> c.id in Ids(c);
    LinkedFrame(a, top, top, L, R, P, L', R', P');
    LinkedFrame(bT, y, top, L, R, P, L', R', P');
    LinkedFrame(c, y, y, L, R, P, L', R', P');
  }

  /** Frame conditions over a tree restrict to a part of it that does not hold the parent `pp`. */
  lemma FrameRestrict(big: seq<int>, small: seq<int>, y: int, top: int, b: int, pp: int,
                      L: seq<int>, R: seq<int>, P: seq<int>, L': seq<int>, R': seq<int>, P': seq<int>)
    requires (forall z :: z in small ==> z in big) && pp !in small
    requires forall z :: z in big && z != y && z != top && z != pp ==> SameChildren(z, L, R, L', R')
    requires forall z :: z in big && z != y && z != top && z != b ==> SameParent(z, P, P')
    ensures forall z :: z in small && z != y && z != top ==> SameChildren(z, L, R, L', R')
    ensures forall z :: z in small && z != y && z != top && z != b ==> SameParent(z, P, P')
  {
  }

  /**
   * Re-linking the subtree of `x` with the same entries: `y` and `b` are the
   * entries whose parent reference changed besides `x`, `pp` is the parent
   * of `x`, whose child reference now names the new top.
   */
  lemma Relink(t: Tree, x: int, s: Tree, y: int, b: int, pp: int,
               L: seq<int>, R: seq<int>, P: seq<int>, L': seq<int>, R': seq<int>, P': seq<int>)
    requires Linked(t, NIL, L, R, P) && Distinct(Ids(t)) && x in Ids(t)
    requires 0 <= x < |P| && pp == P[x]
    requires Linked(s, pp, L', R', P') && Ids(s) == Ids(Find(t, x)) && y in Ids(s) && (b != NIL ==> b in Ids(s))
    requires forall z :: z in Ids(t) && z != y && z != x && z != pp ==> SameChildren(z, L, R, L', R')
    requires forall z :: z in Ids(t) && z != y && z != x && z != b ==> SameParent(z, P, P')
    requires x != Root(t) ==> Redirected(pp, x, Root(s), L, R, L', R')
    ensures Linked(Replace(t, x, s), NIL, L', R', P')
    ensures Ids(Replace(t, x, s)) == Ids(t)
    ensures Root(Replace(t, x, s)) == if x == Root(t) then Root(s) else Root(t)
  {
    FindIn(t, x);
    if x != Root(t) {
      ParentOutside(t, NIL, L, R, P, x);
      ParentOf(t, NIL, L, R, P, x);
      assert pp in Ids(t) && pp != y && pp != x && pp != b;
    }
    ReplaceLinked(t, NIL, x, s, L, R, P, L', R', P');
    SameIdsReplace(t, x, s);
    RootReplace(t, x, s);
  }

  /**
   * roR(top) on the arena: with the references changed as the rotation
   * changes them and every other entry untouched, the arena describes the
   * tree with the subtree of `top` rotated right.
   */
  lemma RotateRightLinked(t: Tree, top: int, y: int, b: int, pp: int,
                          L: seq<int>, R: seq<int>, P: seq<int>, L': seq<int>, R': seq<int>, P': seq<int>)
    requires Linked(t, NIL, L, R, P) && Distinct(Ids(t)) && top in Ids(t)
    requires Find(t, top).Node? && Find(t, top).left.Node?
    requires y == Find(t, top).left.id && b == Root(Find(t, top).left.right)
    requires 0 <= top < |P| && pp == P[top]
    requires forall z :: z in Ids(t) && z != y && z != top && z != pp ==> SameChildren(z, L, R, L', R')
    requires forall z :: z in Ids(t) && z != y && z != top && z != b ==> SameParent(z, P, P')
    requires top != Root(t) ==> Redirected(pp, top, y, L, R, L', R')
    requires 0 <= y < |L'| && y < |R'| && y < |P'| && P'[y] == pp
    requires L'[y] == Root(Find(t, top).left.left) && R'[y] == top
    requires top < |L'| && top < |R'| && top < |P'| && P'[top] == y
    requires L'[top] == b && R'[top] == Root(Find(t, top).right)
    requires b != NIL ==> 0 <= b < |P'| && P'[b] == top
    ensures Linked(Replace(t, top, RotatedRight(Find(t, top))), NIL, L', R', P')
    ensures Ids(Replace(t, top, RotatedRight(Find(t, top)))) == Ids(t)
    ensures Root(Replace(t, top, RotatedRight(Find(t, top)))) == if top == Root(t) then y else Root(t)
  {
    var s0 := Find(t, top);
    var Node(Node(a, _, bT), _, c) := s0;
    FindIn(t, top);
    FindSubset(t, top);
    DistinctFind(t, top);
    LinkedFind(t, NIL, L, R, P, top);
    LinkedInRange(t, NIL, L, R, P);
    DistinctNode(Node(a, y, bT), top, c);
    DistinctNode(a, y, bT);
    if top != Root(t) {
      ParentOutside(t, NIL, L, R, P, top);
    } else {
      assert NIL !in Ids(s0);
    }
    FrameRestrict(Ids(t), Ids(s0), y, top, b, pp, L, R, P, L', R', P');
    RotateRightLocal(a, y, bT, top, c, pp, L, R, P, L', R', P');
    RotateRightIds(s0);
    assert y in Ids(s0) && (b != NIL ==> b in Ids(s0));
    Relink(t, top, RotatedRight(s0), y, b, pp, L, R, P, L', R', P');
  }

  /** roL(top) on the arena: the mirror image of RotateRightLinked. */
  lemma RotateLeftLinked(t: Tree, top: int, y: int, b: int, pp: int,
                         L: seq<int>, R: seq<int>, P: seq<int>, L': seq<int>, R': seq<int>, P': seq<int>)
    requires Linked(t, NIL, L, R, P) && Distinct(Ids(t)) && top in Ids(t)
    requires Find(t, top).Node? && Find(t, top).right.Node?
    requires y == Find(t, top).right.id && b == Root(Find(t, top).right.left)
    requires 0 <= top < |P| && pp == P[top]
    requires forall z :: z in Ids(t) && z != y && z != top && z != pp ==> SameChildren(z, L, R, L', R')
    requires forall z :: z in Ids(t) && z != y && z != top && z != b ==> SameParent(z, P, P')
    requires top != Root(t) ==> Redirected(pp, top, y, L, R, L', R')
    requires 0 <= y < |L'| && y < |R'| && y < |P'| && P'[y] == pp
    requires R'[y] == Root(Find(t, top).right.right) && L'[y] == top
    requires top < |L'| && top < |R'| && top < |P'| && P'[top] == y
    requires R'[top] == b && L'[top] == Root(Find(t, top).left)
    requires b != NIL ==> 0 <= b < |P'| && P'[b] == top
    ensures Linked(Replace(t, top, RotatedLeft(Find(t, top))), NIL, L', R', P')
    ensures Ids(Replace(t, top, RotatedLeft(Find(t, top)))) == Ids(t)
    ensures Root(Replace(t, top, RotatedLeft(Find(t, top)))) == if top == Root(t) then y else Root(t)
  {
    var s0 := Find(t, top);
    var Node(a, _, Node(bT, _, c)) := s0;
    FindIn(t, top);
    FindSubset(t, top);
    DistinctFind(t, top);
    LinkedFind(t, NIL, L, R, P, top);
    LinkedInRange(t, NIL, L, R, P);
    DistinctNode(a, top, Node(bT, y, c));
    DistinctNode(bT, y, c);
    if top != Root(t) {
      ParentOutside(t, NIL, L, R, P, top);
    } else {
      assert NIL !in Ids(s0);
    }
    FrameRestrict(Ids(t), Ids(s0), y, top, b, pp, L, R, P, L', R', P');
    RotateLeftLocal(a, top, bT, y, c, pp, L, R, P, L', R', P');
    RotateLeftIds(s0);
    assert y in Ids(s0) && (b != NIL ==> b in Ids(s0));
    Relink(t, top, RotatedLeft(s0), y, b, pp, L, R, P, L', R', P');
  }

  /** A reference read: NIL outside the arena. */
  function At(s: seq<int>, i: int): int {
    if 0 <= i < |s| then s[i] else NIL
  }

  /** A reference write: nothing happens outside the arena. */
  function Store(s: seq<int>, i: int, v: int): seq<int> {
    if 0 <= i < |s| then s[i := v] else s
  }

  /**
   * The left, right and parent references after roR(top), assigned in
   * MyTreeMap's order; `isRoot` says whether `top` is the root.
   */
  function RightRotatedRefs(L: seq<int>, R: seq<int>, P: seq<int>, top: int, isRoot: bool): (seq<int>, seq<int>, seq<int>) {
    var y := At(L, top);
    var pp := At(P, top);
    var P1 := Store(P, y, pp);
    var L1 := if isRoot || At(R, pp) == top then L else Store(L, pp, y);
    var R1 := if isRoot || At(R, pp) != top then R else Store(R, pp, y);
    var b := At(R1, y);
    var R2 := Store(R1, y, top);
    var P2 := if b != NIL then Store(P1, b, top) else P1;
    (Store(L1, top, b), R2, Store(P2, top, y))
  }

  /** The mirror image of RightRotatedRefs, for roL(top). */
  function LeftRotatedRefs(L: seq<int>, R: seq<int>, P: seq<int>, top: int, isRoot: bool): (seq<int>, seq<int>, seq<int>) {
    var y := At(R, top);
    var pp := At(P, top);
    var P1 := Store(P, y, pp);
    var L1 := if isRoot || At(R, pp) == top then L else Store(L, pp, y);
    var R1 := if isRoot || At(R, pp) != top then R else Store(R, pp, y);
    var b := At(L1, y);
    var L2 := Store(L1, y, top);
    var P2 := if b != NIL then Store(P1, b, top) else P1;
    (L2, Store(R1, top, b), Store(P2, top, y))
  }

  /** The entries roR/roL(top) relinks: the child `y` that moves up, its inner child `b`, and the parent `pp` of `top`. */
  lemma RotationEntries(t: Tree, L: seq<int>, R: seq<int>, P: seq<int>, top: int, leftUp: bool)
    requires Linked(t, NIL, L, R, P) && Distinct(Ids(t)) && top in Ids(t)
    requires if leftUp then Left(Find(t, top)).Node? else Right(Find(t, top)).Node?
    ensures 0 <= top < |L| && top < |R| && top < |P| && Find(t, top).Node? && Find(t, top).id == top
    ensures L[top] == Root(Find(t, top).left) && R[top] == Root(Find(t, top).right)
    ensures var c := if leftUp then Find(t, top).left else Find(t, top).right;
      && c.Node? && c.id in Ids(t) && c.id != top
      && (if leftUp then L[top] else R[top]) == c.id
      && 0 <= c.id < |L| && c.id < |R| && c.id < |P|
      && L[c.id] == Root(c.left) && R[c.id] == Root(c.right)
      && var b := if leftUp then Root(c.right) else Root(c.left);
      && (b != NIL ==> 0 <= b < |P| && b != top && b != c.id)
      && (top != Root(t) ==> 0 <= P[top] < |L| && P[top] < |R| && P[top] != c.id && P[top] != b && P[top] != top)
      && (top != Root(t) ==> (L[P[top]] == top) != (R[P[top]] == top))
  {
    ChildParent(t, L, R, P, top);
    FindSubset(t, top);
    DistinctFind(t, top);
    var s := Find(t, top);
    DistinctNode(s.left, top, s.right);
    var c := if leftUp then s.left else s.right;
    assert c.id in Ids(s);
    ChildParent(t, L, R, P, c.id);
    ChildFind(t, top);
    DistinctNode(c.left, c.id, c.right);
    assert c.left.Node? ==> c.left.id in Ids(c);
    assert c.right.Node? ==> c.right.id in Ids(c);
    if top != Root(t) {
      ParentOutside(t, NIL, L, R, P, top);
      ParentSide(t, L, R, P, top);
    }
  }

  /** roR(top) as MyTreeMap assigns the references re-links the tree with the subtree of `top` rotated right. */
  lemma RightRotatedRefsLinked(t: Tree, L: seq<int>, R: seq<int>, P: seq<int>, top: int)
    requires Linked(t, NIL, L, R, P) && Distinct(Ids(t)) && top in Ids(t) && Left(Find(t, top)).Node?
    ensures var k := RightRotatedRefs(L, R, P, top, top == Root(t));
      var t' := Replace(t, top, RotatedRight(Find(t, top)));
      && |k.0| == |L| && |k.1| == |R| && |k.2| == |P|
      && Linked(t', NIL, k.0, k.1, k.2) && Ids(t') == Ids(t)
      && Root(t') == if top == Root(t) then Find(t, top).left.id else Root(t)
  {
    RotationEntries(t, L, R, P, top, true);
    LinkedInRange(t, NIL, L, R, P);
    var k := RightRotatedRefs(L, R, P, top, top == Root(t));
    var y, b, pp := Find(t, top).left.id, Root(Find(t, top).left.right), P[top];
    var L', R', P' := k.0, k.1, k.2;
    assert |L'| == |L| && |R'| == |R| && |P'| == |P|;
    assert forall z :: 0 <= z < |L| && z != top && z != pp ==> L'[z] == L[z];
    assert forall z :: 0 <= z < |R| && z != y && z != pp ==> R'[z] == R[z];
    assert forall z :: 0 <= z < |P| && z != y && z != top && z != b ==> P'[z] == P[z];
    assert R'[top] == R[top];
    RotateRightLinked(t, top, y, b, pp, L, R, P, L', R', P');
  }

  /** roL(top) as MyTreeMap assigns the references re-links the tree with the subtree of `top` rotated left. */
  lemma LeftRotatedRefsLinked(t: Tree, L: seq<int>, R: seq<int>, P: seq<int>, top: int)
    requires Linked(t, NIL, L, R, P) && Distinct(Ids(t)) && top in Ids(t) && Right(Find(t, top)).Node?
    ensures var k := LeftRotatedRefs(L, R, P, top, top == Root(t));
      var t' := Replace(t, top, RotatedLeft(Find(t, top)));
      && |k.0| == |L| && |k.1| == |R| && |k.2| == |P|
      && Linked(t', NIL, k.0, k.1, k.2) && Ids(t') == Ids(t)
      && Root(t') == if top == Root(t) then Find(t, top).right.id else Root(t)
  {
    RotationEntries(t, L, R, P, top, false);
    LinkedInRange(t, NIL, L, R, P);
    var k := LeftRotatedRefs(L, R, P, top, top == Root(t));
    var y, b, pp := Find(t, top).right.id, Root(Find(t, top).right.left), P[top];
    var L', R', P' := k.0, k.1, k.2;
    assert |L'| == |L| && |R'| == |R| && |P'| == |P|;
    assert forall z :: 0 <= z < |L| && z != y && z != pp ==> L'[z] == L[z];
    assert forall z :: 0 <= z < |R| && z != top && z != pp ==> R'[z] == R[z];
    assert forall z :: 0 <= z < |P| && z != y && z != top && z != b ==> P'[z] == P[z];
    assert L'[top] == L[top];
    RotateLeftLinked(t, top, y, b, pp, L, R, P, L', R', P');
  }

  /** A new entry `n` with no children. */
  function Leaf(n: int): Tree {
    Node(Nil, n, Nil)
  }

  /** `s` with the leaf `n` hung where its left (or right) child was missing. */
  function Hang(s: Tree, n: int, left: bool): Tree
    requires s.Node?
  {
    if left then Node(Leaf(n), s.id, s.right) else Node(s.left, s.id, Leaf(n))
  }

  /** The new leaf comes first (or last) among the entries of the subtree it joins. */
  lemma HangIds(s: Tree, n: int, left: bool)
    requires s.Node? && (if left then s.left.Nil? else s.right.Nil?)
    ensures Ids(Hang(s, n, left)) == if left then [n] + Ids(s) else Ids(s) + [n]
  {
  }

  /** A frame over the whole tree, except `c`, restricted to a part of it. */
  lemma FrameBelow(all: seq<int>, part: seq<int>, c: int,
                   L: seq<int>, R: seq<int>, P: seq<int>, L': seq<int>, R': seq<int>, P': seq<int>)
    requires forall z :: z in part ==> z in all
    requires forall z :: z in all && z != c ==> SameChildren(z, L, R, L', R') && SameParent(z, P, P')
    ensures forall z :: z in part && z != c ==> SameChildren(z, L, R, L', R') && SameParent(z, P, P')
  {
  }

  /** The references inside the subtree of `c` once the leaf `n` hangs as its left child. */
  lemma AttachLeftLocal(c: int, r: Tree, pp: int, n: int,
                        L: seq<int>, R: seq<int>, P: seq<int>, L': seq<int>, R': seq<int>, P': seq<int>)
    requires Linked(r, c, L, R, P) && Distinct(Ids(r)) && c !in Ids(r)
    requires forall z :: z in Ids(r) ==> SameChildren(z, L, R, L', R') && SameParent(z, P, P')
    requires 0 <= c < |L'| && c < |R'| && c < |P'| && P'[c] == pp && L'[c] == n && R'[c] == Root(r)
    requires 0 <= n < |L'| && n < |R'| && n < |P'| && P'[n] == c && L'[n] == NIL && R'[n] == NIL
    ensures Linked(Node(Leaf(n), c, r), pp, L', R', P')
  {
    assert r.Node? ==> r.id in Ids(r) && P[r.id] == c;
    LinkedFrame(r, c, c, L, R, P, L', R', P');
  }

  /** The references inside the subtree of `c` once the leaf `n` hangs as its right child. */
  lemma AttachRightLocal(l: Tree, c: int, pp: int, n: int,
                         L: seq<int>, R: seq<int>, P: seq<int>, L': seq<int>, R': seq<int>, P': seq<int>)
    requires Linked(l, c, L, R, P) && Distinct(Ids(l)) && c !in Ids(l)
    requires forall z :: z in Ids(l) ==> SameChildren(z, L, R, L', R') && SameParent(z, P, P')
    requires 0 <= c < |L'| && c < |R'| && c < |P'| && P'[c] == pp && R'[c] == n && L'[c] == Root(l)
    requires 0 <= n < |L'| && n < |R'| && n < |P'| && P'[n] == c && L'[n] == NIL && R'[n] == NIL
    ensures Linked(Node(l, c, Leaf(n)), pp, L', R', P')
  {
    assert l.Node? ==> l.id in Ids(l) && P[l.id] == c;
    LinkedFrame(l, c, c, L, R, P, L', R', P');
  }

  /**
   * put's attachment of a new entry `n` below `c`: with `c`'s missing child
   * reference now naming `n`, `n` pointing back to `c`, and every other
   * entry untouched, the arena describes the tree with the leaf hung below `c`.
   */
  lemma AttachLinked(t: Tree, c: int, n: int, left: bool,
                     L: seq<int>, R: seq<int>, P: seq<int>, L': seq<int>, R': seq<int>, P': seq<int>)
    requires Linked(t, NIL, L, R, P) && Distinct(Ids(t)) && c in Ids(t) && n !in Ids(t)
    requires Find(t, c).Node? && (if left then Find(t, c).left.Nil? else Find(t, c).right.Nil?)
    requires forall z :: z in Ids(t) && z != c ==> SameChildren(z, L, R, L', R') && SameParent(z, P, P')
    requires SameParent(c, P, P') && 0 <= c < |L'| && c < |R'|
    requires L'[c] == (if left then n else Root(Find(t, c).left))
    requires R'[c] == (if left then Root(Find(t, c).right) else n)
    requires 0 <= n < |L'| && n < |R'| && n < |P'| && P'[n] == c && L'[n] == NIL && R'[n] == NIL
    ensures Linked(Replace(t, c, Hang(Find(t, c), n, left)), NIL, L', R', P')
    ensures Root(Replace(t, c, Hang(Find(t, c), n, left))) == Root(t)
    ensures Ids(Replace(t, c, Hang(Find(t, c), n, left))) ==
      Before(t, c) + (if left then [n] + Ids(Find(t, c)) else Ids(Find(t, c)) + [n]) + After(t, c)
  {
    var s0 := Find(t, c);
    var s := Hang(s0, n, left);
    FindIn(t, c);
    FindSubset(t, c);
    DistinctFind(t, c);
    LinkedFind(t, NIL, L, R, P, c);
    FrameBelow(Ids(t), Ids(s0), c, L, R, P, L', R', P');
    DistinctNode(s0.left, c, s0.right);
    assert Linked(s0.left, c, L, R, P) && Linked(s0.right, c, L, R, P);
    assert forall z :: z in Ids(s0.left) ==> z in Ids(s0) && z != c;
    assert forall z :: z in Ids(s0.right) ==> z in Ids(s0) && z != c;
    if left {
      AttachLeftLocal(c, s0.right, P[c], n, L, R, P, L', R', P');
    } else {
      AttachRightLocal(s0.left, c, P[c], n, L, R, P, L', R', P');
    }
    if c != Root(t) {
      ParentOf(t, NIL, L, R, P, c);
      assert P[c] in Ids(t) && P[c] != c;
    }
    ReplaceLinked(t, NIL, c, s, L, R, P, L', R', P');
    RootReplace(t, c, s);
    ReplaceIds(t, c, s);
    HangIds(s0, n, left);
  }

  /** An entry below the top is exactly one of its parent's two children. */
  lemma ParentSide(t: Tree, L: seq<int>, R: seq<int>, P: seq<int>, x: int)
    requires Linked(t, NIL, L, R, P) && Distinct(Ids(t)) && x in Ids(t) && x != Root(t)
    ensures 0 <= x < |P| && P[x] in Ids(t) && 0 <= P[x] < |L| && P[x] < |R|
    ensures Find(t, P[x]).Node? && Find(t, P[x]).id == P[x]
    ensures L[P[x]] == x <==> Find(t, P[x]).left.Node? && Find(t, P[x]).left.id == x
    ensures R[P[x]] == x <==> Find(t, P[x]).right.Node? && Find(t, P[x]).right.id == x
    ensures (L[P[x]] == x) != (R[P[x]] == x)
  {
    ParentOf(t, NIL, L, R, P, x);
    var p := P[x];
    LinkedFind(t, NIL, L, R, P, p);
    ChildFind(t, p);
    DistinctFind(t, p);
    var s := Find(t, p);
    DistinctNode(s.left, p, s.right);
    assert s.left.Node? ==> s.left.id in Ids(s.left);
    assert s.right.Node? ==> s.right.id in Ids(s.right);
  }

  /** The children of an entry point back to it. */
  lemma ChildParent(t: Tree, L: seq<int>, R: seq<int>, P: seq<int>, x: int)
    requires Linked(t, NIL, L, R, P) && Distinct(Ids(t)) && x in Ids(t)
    ensures 0 <= x < |L| && x < |R| && x < |P| && Find(t, x).Node? && Find(t, x).id == x
    ensures L[x] == Root(Find(t, x).left) && R[x] == Root(Find(t, x).right)
    ensures Find(t, x).left.Node? ==> 0 <= L[x] < |P| && P[L[x]] == x
    ensures Find(t, x).right.Node? ==> 0 <= R[x] < |P| && P[R[x]] == x
  {
    LinkedFind(t, NIL, L, R, P, x);
    ChildFind(t, x);
    var s := Find(t, x);
    assert Linked(s.left, x, L, R, P) && Linked(s.right, x, L, R, P);
  }
}
