/**
 * The colours of MyTreeMap's entries. A slot's colour is a `bool` (BLACK is
 * `true`, as in the source), and the two-colouring rule the top-down
 * insertion keeps is that no red entry has a red child. These lemmas state
 * what a colour flip, a pullUp and a new red leaf do to that rule on the
 * entry tree.
 */
module TreeColors {
  import opened TreeShapes
  import opened TreeSearch
  import opened TreeLinks
  import opened TreePullUp

  const BLACK: bool := true
  const RED: bool := false

  /** `c` with the colours of the entries in `S` changed. */
  function FlipAll(c: seq<bool>, S: set<int>): (r: seq<bool>)
    ensures |r| == |c|
    ensures forall j :: 0 <= j < |c| ==> r[j] == if j in S then !c[j] else c[j]
  {
    seq(|c|, j requires 0 <= j < |c| => if j in S then !c[j] else c[j])
  }

  /** Slot `y` holds a red entry; NIL is never red. */
  predicate RedId(y: int, C: seq<bool>) {
    0 <= y < |C| && C[y] == RED
  }

  /** The top entry of `t` is red. */
  predicate IsRed(t: Tree, C: seq<bool>) {
    t.Node? && RedId(t.id, C)
  }

  /**
   * No red entry of `t` has a red child, except that `x` may be a red child
   * of a red entry: the one violation a repair step is about to mend.
   */
  ghost predicate RedFreeBut(t: Tree, C: seq<bool>, x: int) {
    match t
    case Nil => true
    case Node(l, i, r) =>
      && (RedId(i, C) && IsRed(l, C) ==> l.id == x)
      && (RedId(i, C) && IsRed(r, C) ==> r.id == x)
      && RedFreeBut(l, C, x) && RedFreeBut(r, C, x)
  }

  /** No red entry of `t` has a red child. */
  ghost predicate NoRedRed(t: Tree, C: seq<bool>) {
    RedFreeBut(t, C, NIL)
  }

  /** The entries `ids` have the same colours under `C` and `C'`. */
  ghost predicate SameColors(ids: seq<int>, C: seq<bool>, C': seq<bool>) {
    forall y :: y in ids ==> (RedId(y, C) <==> RedId(y, C'))
  }

  /** The top of `s` is a black entry, and neither of its children is red. */
  ghost predicate Calm(s: Tree, C: seq<bool>) {
    s.Node? && !IsRed(s, C) && !IsRed(s.left, C) && !IsRed(s.right, C)
  }

  /** The child of the top of `X` on the side the lookup of `k` goes to. */
  function KeyChild(X: Tree, K: seq<int>, k: int): Tree {
    if X.Node? && 0 <= X.id < |K| && k < K[X.id] then X.left else Right(X)
  }

  /** Entries colour-flipped by flipColor at the top of `s`; the root keeps its colour. */
  function FlipSet(s: Tree, isRoot: bool): set<int> {
    {Root(Left(s)), Root(Right(s))} + (if isRoot then {} else {Root(s)})
  }

  // ----- the pullUp configuration below a grandparent -----

  /** The subtree of the grandchild `x`. */
  function GrandSub(s: Tree, x: int): Tree
    requires GrandChild(s, x)
  {
    if OuterLeft(s, x) then s.left.left
    else if OuterRight(s, x) then s.right.right
    else if InnerLeft(s, x) then s.left.right
    else s.right.left
  }

  /** The subtree of the parent of `x`. */
  function ParentSub(s: Tree, x: int): Tree
    requires GrandChild(s, x)
  {
    if OuterLeft(s, x) then s.left
    else if OuterRight(s, x) then s.right
    else if InnerLeft(s, x) then s.left
    else s.right
  }

  /** The subtree of the uncle of `x`: the grandparent's other child. */
  function UncleSub(s: Tree, x: int): Tree
    requires GrandChild(s, x)
  {
    if OuterLeft(s, x) then s.right
    else if OuterRight(s, x) then s.left
    else if InnerLeft(s, x) then s.right
    else s.left
  }

  /** The entries pullUp(x) recolours: the grandparent, and `x` (inner) or its parent (outer). */
  function PullFlips(s: Tree, x: int): set<int>
    requires GrandChild(s, x)
  {
    {s.id, if Inner(s, x) then x else ParentSub(s, x).id}
  }

  /**
   * The colours pullUp(x) can mend: `x` and its parent are red, and the
   * uncle and both children of `x` are not.
   */
  ghost predicate PullReady(s: Tree, x: int, C: seq<bool>)
    requires GrandChild(s, x)
  {
    && IsRed(GrandSub(s, x), C) && IsRed(ParentSub(s, x), C) && !IsRed(UncleSub(s, x), C)
    && !IsRed(GrandSub(s, x).left, C) && !IsRed(GrandSub(s, x).right, C)
  }

  // ----- frames -----

  /**
   * Recolouring nothing inside `t` keeps the rule; an exception that is not
   * a red entry of `t` can be traded for any other.
   */
  lemma {:induction false} FreeFrame(t: Tree, C: seq<bool>, C': seq<bool>, x: int, y: int)
    requires RedFreeBut(t, C, x) && SameColors(Ids(t), C, C')
    requires x == y || x !in Ids(t) || !RedId(x, C)
    ensures RedFreeBut(t, C', y)
  {
    match t
    case Nil =>
    case Node(l, i, r) =>
      assert l.Node? ==> l.id in Ids(t);
      assert r.Node? ==> r.id in Ids(t);
      FreeFrame(l, C, C', x, y);
      FreeFrame(r, C, C', x, y);
  }

  /** Every subtree keeps the rule. */
  lemma {:induction false} FreeFind(t: Tree, C: seq<bool>, x: int, y: int)
    requires RedFreeBut(t, C, x) && y in Ids(t)
    ensures RedFreeBut(Find(t, y), C, x)
  {
    match t
    case Node(l, i, r) =>
      if i == y {
      } else if y in Ids(l) {
        FreeFind(l, C, x, y);
      } else {
        FreeFind(r, C, x, y);
      }
  }

  /** Flipping entries outside `ids` leaves their colours alone. */
  lemma FlipOutside(ids: seq<int>, C: seq<bool>, S: set<int>)
    requires forall z :: z in ids ==> z !in S
    ensures SameColors(ids, C, FlipAll(C, S))
  {
  }

  /** A calm subtree stays calm when entries outside it are recoloured. */
  lemma CalmFrame(s: Tree, C: seq<bool>, S: set<int>)
    requires Calm(s, C) && forall z :: z in Ids(s) ==> z !in S
    ensures Calm(s, FlipAll(C, S))
  {
    assert s.id in Ids(s);
    assert s.left.Node? ==> s.left.id in Ids(s);
    assert s.right.Node? ==> s.right.id in Ids(s);
  }

  /** The subtree of an entry is not touched by replacing a subtree beside or below it. */
  lemma {:induction false} ReplaceFindSelf(t: Tree, x: int)
    requires x in Ids(t)
    ensures Replace(t, x, Find(t, x)) == t
  {
    match t
    case Node(l, i, r) =>
      if i == x {
      } else if x in Ids(l) {
        ReplaceFindSelf(l, x);
      } else {
        ReplaceFindSelf(r, x);
      }
  }

  /** An entry above `g` is not inside the subtree of `g`. */
  lemma AboveOutside(t: Tree, g: int)
    requires Distinct(Ids(t)) && t.Node? && g in Ids(t) && g != t.id
    ensures t.id !in Ids(Find(t, g))
    ensures g in Ids(t.left) ==> forall z :: z in Ids(Find(t, g)) ==> z in Ids(t.left)
    ensures g !in Ids(t.left) ==> g in Ids(t.right) && forall z :: z in Ids(Find(t, g)) ==> z in Ids(t.right)
  {
    DistinctNode(t.left, t.id, t.right);
    if g in Ids(t.left) {
      FindSubset(t.left, g);
    } else {
      FindSubset(t.right, g);
    }
  }

  /**
   * Replacing the subtree of `g` keeps the rule when nothing outside it is
   * recoloured, the replacement keeps the rule, and its top is red only if
   * it is the new exception `y` or the old top `g`, red before and not the
   * old exception.
   */
  lemma {:induction false} ReplaceFree(t: Tree, g: int, s: Tree, C: seq<bool>, C': seq<bool>, x: int, y: int)
    requires Distinct(Ids(t)) && g in Ids(t) && RedFreeBut(t, C, x)
    requires !RedId(x, C) || x !in Ids(t) || (x in Ids(Find(t, g)) && x != g)
    requires forall z :: z in Ids(t) && z !in Ids(Find(t, g)) ==> (RedId(z, C) <==> RedId(z, C'))
    requires RedFreeBut(s, C', y)
    requires IsRed(s, C') ==> s.id == y || (s.id == g && RedId(g, C))
    ensures RedFreeBut(Replace(t, g, s), C', y)
  {
    match t
    case Node(l, i, r) =>
      DistinctNode(l, i, r);
      if i == g {
      } else {
        AboveOutside(t, g);
        if g in Ids(l) {
          ReplaceFree(l, g, s, C, C', x, y);
          FreeFrame(r, C, C', x, y);
          if l.id != g {
            AboveOutside(l, g);
          }
        } else {
          ReplaceFree(r, g, s, C, C', x, y);
          FreeFrame(l, C, C', x, y);
          if r.id != g {
            AboveOutside(r, g);
          }
        }
      }
  }

  // ----- flipColor -----

  /**
   * flipColor at the top of `s`, whose children are both red, in a tree
   * that keeps the rule: the children turn black with no red child below
   * them, and the only red entry a red parent may now have is the top.
   */
  lemma FlipLocal(s: Tree, C: seq<bool>, isRoot: bool)
    requires s.Node? && Distinct(Ids(s)) && NoRedRed(s, C)
    requires IsRed(Left(s), C) && IsRed(Right(s), C)
    ensures forall z :: z in FlipSet(s, isRoot) ==> z in Ids(s)
    ensures RedFreeBut(s, FlipAll(C, FlipSet(s, isRoot)), s.id)
    ensures Calm(s.left, FlipAll(C, FlipSet(s, isRoot))) && Calm(s.right, FlipAll(C, FlipSet(s, isRoot)))
  {
    var l, i, r := s.left, s.id, s.right;
    var C' := FlipAll(C, FlipSet(s, isRoot));
    assert Ids(s) == Ids(l) + [i] + Ids(r);
    assert l.id in Ids(l) && r.id in Ids(r);
    FlipSide(s, C, isRoot, true);
    FlipSide(s, C, isRoot, false);
    assert !IsRed(l, C') && !IsRed(r, C');
  }

  /** FlipLocal for one child of `s`: it turns calm and keeps the rule with the top as exception. */
  lemma FlipSide(s: Tree, C: seq<bool>, isRoot: bool, left: bool)
    requires s.Node? && Distinct(Ids(s)) && NoRedRed(s, C)
    requires IsRed(Left(s), C) && IsRed(Right(s), C)
    ensures var c := if left then s.left else s.right;
      Calm(c, FlipAll(C, FlipSet(s, isRoot))) && RedFreeBut(c, FlipAll(C, FlipSet(s, isRoot)), s.id)
  {
    var c, o := if left then s.left else s.right, if left then s.right else s.left;
    var F := FlipSet(s, isRoot);
    DistinctNode(s.left, s.id, s.right);
    assert c.id in Ids(c) && o.id in Ids(o);
    forall z | z in Ids(c) && z != c.id
      ensures z !in F
    {
      assert z != s.id && z !in Ids(o);
    }
    FlipChild(c, C, F, s.id);
  }

  /** A red child of a flipped entry turns black, and nothing below it changes colour. */
  lemma FlipChild(c: Tree, C: seq<bool>, F: set<int>, y: int)
    requires c.Node? && Distinct(Ids(c)) && NoRedRed(c, C) && RedId(c.id, C) && c.id in F
    requires forall z :: z in Ids(c) && z != c.id ==> z !in F
    ensures Calm(c, FlipAll(C, F)) && RedFreeBut(c, FlipAll(C, F), y)
  {
    var C' := FlipAll(C, F);
    DistinctNode(c.left, c.id, c.right);
    FlipOutside(Ids(c.left), C, F);
    FlipOutside(Ids(c.right), C, F);
    FreeFrame(c.left, C, C', NIL, y);
    FreeFrame(c.right, C, C', NIL, y);
    assert c.left.Node? ==> c.left.id in Ids(c.left);
    assert c.right.Node? ==> c.right.id in Ids(c.right);
  }

  // ----- pullUp -----

  /**
   * A piece of the subtree pullUp rearranges that holds neither `x` nor a
   * recoloured entry keeps the rule, now with no exception, and its top
   * keeps its colour.
   */
  lemma PieceFree(a: Tree, C: seq<bool>, F: set<int>, x: int)
    requires RedFreeBut(a, C, x) && x !in Ids(a) && forall z :: z in Ids(a) ==> z !in F
    ensures RedFreeBut(a, FlipAll(C, F), NIL)
    ensures IsRed(a, FlipAll(C, F)) == IsRed(a, C)
  {
    FlipOutside(Ids(a), C, F);
    FreeFrame(a, C, FlipAll(C, F), x, NIL);
    assert a.Node? ==> a.id in Ids(a);
  }

  /** An outer grandchild is not also an inner one, so pullUp recolours the grandparent and the parent. */
  lemma OuterFlips(s: Tree, x: int)
    requires Distinct(Ids(s)) && (OuterLeft(s, x) || OuterRight(s, x))
    ensures PullFlips(s, x) == {s.id, ParentSub(s, x).id}
  {
    DistinctNode(s.left, s.id, s.right);
    if OuterLeft(s, x) {
      var p := s.left;
      DistinctNode(p.left, p.id, p.right);
      assert x in Ids(p.left) && x in Ids(s.left);
      assert p.right.Node? ==> p.right.id in Ids(p.right);
      assert s.right.Node? ==> s.right.id in Ids(s.right) && (s.right.left.Node? ==> s.right.left.id in Ids(s.right));
    } else {
      var p := s.right;
      DistinctNode(p.left, p.id, p.right);
      assert x in Ids(p.right) && x in Ids(s.right);
      assert p.left.Node? ==> p.left.id in Ids(p.left);
      assert s.left.Node? ==> s.left.id in Ids(s.left) && (s.left.right.Node? ==> s.left.right.id in Ids(s.left));
    }
  }

  /** pullUp of an outer left grandchild mends the one red-red pair. */
  lemma PullOuterLeft(s: Tree, x: int, C: seq<bool>)
    requires OuterLeft(s, x) && Distinct(Ids(s)) && RedFreeBut(s, C, x) && PullReady(s, x, C)
    ensures NoRedRed(PulledUp(s, x), FlipAll(C, PullFlips(s, x)))
    ensures !IsRed(PulledUp(s, x), FlipAll(C, PullFlips(s, x)))
  {
    var p, X := s.left, s.left.left;
    var a, b, c, d := X.left, X.right, p.right, s.right;
    DistinctNode(p, s.id, d);
    DistinctNode(X, p.id, c);
    DistinctNode(a, x, b);
    OuterFlips(s, x);
    var F := PullFlips(s, x);
    assert RedFreeBut(p, C, x) && RedFreeBut(X, C, x);
    PieceFree(a, C, F, x);
    PieceFree(b, C, F, x);
    PieceFree(c, C, F, x);
    PieceFree(d, C, F, x);
    assert PulledUp(s, x) == Node(X, p.id, Node(c, s.id, d));
  }

  /** pullUp of an outer right grandchild mends the one red-red pair. */
  lemma PullOuterRight(s: Tree, x: int, C: seq<bool>)
    requires OuterRight(s, x) && !OuterLeft(s, x) && Distinct(Ids(s)) && RedFreeBut(s, C, x) && PullReady(s, x, C)
    ensures NoRedRed(PulledUp(s, x), FlipAll(C, PullFlips(s, x)))
    ensures !IsRed(PulledUp(s, x), FlipAll(C, PullFlips(s, x)))
  {
    var p, X := s.right, s.right.right;
    var a, b, c, d := X.left, X.right, p.left, s.left;
    DistinctNode(d, s.id, p);
    DistinctNode(c, p.id, X);
    DistinctNode(a, x, b);
    OuterFlips(s, x);
    var F := PullFlips(s, x);
    assert RedFreeBut(p, C, x) && RedFreeBut(X, C, x);
    PieceFree(a, C, F, x);
    PieceFree(b, C, F, x);
    PieceFree(c, C, F, x);
    PieceFree(d, C, F, x);
    assert PulledUp(s, x) == Node(Node(d, s.id, c), p.id, X);
  }

  /** pullUp of an inner left grandchild mends the one red-red pair. */
  lemma PullInnerLeft(s: Tree, x: int, C: seq<bool>)
    requires InnerLeft(s, x) && !OuterLeft(s, x) && !OuterRight(s, x)
    requires Distinct(Ids(s)) && RedFreeBut(s, C, x) && PullReady(s, x, C)
    ensures NoRedRed(PulledUp(s, x), FlipAll(C, PullFlips(s, x)))
    ensures !IsRed(PulledUp(s, x), FlipAll(C, PullFlips(s, x)))
  {
    var p, X := s.left, s.left.right;
    var a, b, c, d := p.left, X.left, X.right, s.right;
    DistinctNode(p, s.id, d);
    DistinctNode(a, p.id, X);
    DistinctNode(b, x, c);
    var F := PullFlips(s, x);
    assert F == {s.id, x};
    assert RedFreeBut(p, C, x) && RedFreeBut(X, C, x);
    PieceFree(a, C, F, x);
    PieceFree(b, C, F, x);
    PieceFree(c, C, F, x);
    PieceFree(d, C, F, x);
  }

  /** pullUp of an inner right grandchild mends the one red-red pair. */
  lemma PullInnerRight(s: Tree, x: int, C: seq<bool>)
    requires InnerRight(s, x) && !OuterLeft(s, x) && !OuterRight(s, x) && !InnerLeft(s, x)
    requires Distinct(Ids(s)) && RedFreeBut(s, C, x) && PullReady(s, x, C)
    ensures NoRedRed(PulledUp(s, x), FlipAll(C, PullFlips(s, x)))
    ensures !IsRed(PulledUp(s, x), FlipAll(C, PullFlips(s, x)))
  {
    var p, X := s.right, s.right.left;
    var a, b, c, d := s.left, X.left, X.right, p.right;
    DistinctNode(a, s.id, p);
    DistinctNode(X, p.id, d);
    DistinctNode(b, x, c);
    var F := PullFlips(s, x);
    assert F == {s.id, x};
    assert RedFreeBut(p, C, x) && RedFreeBut(X, C, x);
    PieceFree(a, C, F, x);
    PieceFree(b, C, F, x);
    PieceFree(c, C, F, x);
    PieceFree(d, C, F, x);
  }

  /**
   * pullUp(x) below the grandparent `g` of `t`, when `x` and its parent are
   * the one red-red pair and the uncle and the children of `x` are not red,
   * leaves a tree in which no red entry has a red child.
   */
  lemma PullUpFree(t: Tree, g: int, x: int, C: seq<bool>)
    requires Distinct(Ids(t)) && g in Ids(t) && GrandChild(Find(t, g), x)
    requires RedFreeBut(t, C, x) && PullReady(Find(t, g), x, C)
    ensures NoRedRed(Replace(t, g, PulledUp(Find(t, g), x)), FlipAll(C, PullFlips(Find(t, g), x)))
  {
    var s := Find(t, g);
    FindIn(t, g);
    DistinctFind(t, g);
    FreeFind(t, C, x, g);
    if OuterLeft(s, x) {
      PullOuterLeft(s, x, C);
    } else if OuterRight(s, x) {
      PullOuterRight(s, x, C);
    } else if InnerLeft(s, x) {
      PullInnerLeft(s, x, C);
    } else {
      PullInnerRight(s, x, C);
    }
    var F := PullFlips(s, x);
    assert x in Ids(s) && x != g by {
      DistinctNode(s.left, s.id, s.right);
      assert s.left.Node? ==> Ids(s.left) == Ids(s.left.left) + [s.left.id] + Ids(s.left.right);
      assert s.right.Node? ==> Ids(s.right) == Ids(s.right.left) + [s.right.id] + Ids(s.right.right);
    }
    assert forall z :: z in F ==> z in Ids(s) by {
      assert s.left.Node? ==> s.left.id in Ids(s);
      assert s.right.Node? ==> s.right.id in Ids(s);
    }
    ReplaceFree(t, g, PulledUp(s, x), C, FlipAll(C, F), x, NIL);
  }

  /**
   * After pullUp of an inner grandchild `x` (which becomes the top), the
   * lookup of `k` takes two more steps, to the parent or the grandparent
   * and then back to the child of `x` it would have gone to before.
   */
  lemma InnerNext(s: Tree, x: int, K: seq<int>, k: int)
    requires Inner(s, x) && !OuterLeft(s, x) && !OuterRight(s, x)
    requires 0 <= s.id < |K| && 0 <= x < |K|
    requires InnerLeft(s, x) ==> 0 <= s.left.id < |K| && K[s.left.id] < k && k < K[s.id]
    requires !InnerLeft(s, x) ==> 0 <= s.right.id < |K| && K[s.id] < k && k < K[s.right.id]
    requires k != K[x]
    ensures KeyChild(PulledUp(s, x), K, k).Node?
    ensures KeyChild(KeyChild(PulledUp(s, x), K, k), K, k) == KeyChild(GrandSub(s, x), K, k)
  {
  }

  // ----- the new leaf -----

  /**
   * A red leaf `n` hung below `e` in a tree that keeps the rule: the only
   * red entry a red parent may have is `n`.
   */
  lemma HangFree(t: Tree, e: int, n: int, left: bool, C: seq<bool>)
    requires Distinct(Ids(t)) && e in Ids(t) && NoRedRed(t, C) && n == |C|
    requires forall z :: z in Ids(t) ==> 0 <= z < |C|
    ensures Find(t, e).Node?
    ensures RedFreeBut(Replace(t, e, Hang(Find(t, e), n, left)), C + [RED], n)
  {
    var X := Find(t, e);
    var C' := C + [RED];
    FindIn(t, e);
    FindSubset(t, e);
    FreeFind(t, C, NIL, e);
    assert Ids(X) == Ids(X.left) + [e] + Ids(X.right);
    assert SameColors(Ids(X.left), C, C') && SameColors(Ids(X.right), C, C') by {
      forall z | z in Ids(X.left) || z in Ids(X.right)
        ensures 0 <= z < |C|
      {
        assert z in Ids(X);
      }
    }
    FreeFrame(X.left, C, C', NIL, n);
    FreeFrame(X.right, C, C', NIL, n);
    assert e in Ids(X);
    ReplaceFree(t, e, Hang(X, n, left), C, C', NIL, n);
  }

  // ----- the red-red pair and the parent references -----

  /**
   * Below the child `P` of `G`, the subtree `X` of a child of `P` holds
   * neither `P`, nor `G`, nor the other child of `G`.
   */
  lemma UncleApart(G: Tree, P: Tree, X: Tree)
    requires G.Node? && Distinct(Ids(G)) && P.Node? && (P == G.left || P == G.right) && (X == P.left || X == P.right)
    ensures var U := if P == G.left then G.right else G.left;
      forall z :: z in Ids(X) ==> z != P.id && z != G.id && (U.Node? ==> z != U.id)
  {
    DistinctNode(G.left, G.id, G.right);
    DistinctNode(P.left, P.id, P.right);
    var U := if P == G.left then G.right else G.left;
    forall z | z in Ids(X)
      ensures z != P.id && z != G.id && (U.Node? ==> z != U.id)
    {
      assert z in Ids(P);
      assert U.Node? ==> U.id in Ids(U);
    }
  }

  /** When `x` is not red under a red parent, the exception is not used. */
  lemma {:induction false} Cleared(t: Tree, q: int, L: seq<int>, R: seq<int>, P: seq<int>, C: seq<bool>, x: int)
    requires Linked(t, q, L, R, P) && RedFreeBut(t, C, x)
    requires !(RedId(x, C) && 0 <= x < |P| && RedId(P[x], C))
    ensures NoRedRed(t, C)
  {
    match t
    case Nil =>
    case Node(l, i, r) =>
      Cleared(l, i, L, R, P, C, x);
      Cleared(r, i, L, R, P, C, x);
  }

  /** In a tree that keeps the rule, no red entry has a red parent. */
  lemma {:induction false} ParentPair(t: Tree, q: int, L: seq<int>, R: seq<int>, P: seq<int>, C: seq<bool>, x: int)
    requires Linked(t, q, L, R, P) && Distinct(Ids(t)) && NoRedRed(t, C) && x in Ids(t) && x != Root(t)
    ensures 0 <= x < |P| && !(RedId(x, C) && RedId(P[x], C))
  {
    match t
    case Node(l, i, r) =>
      DistinctNode(l, i, r);
      if x in Ids(l) {
        if x != Root(l) {
          ParentPair(l, i, L, R, P, C, x);
        }
      } else {
        if x != Root(r) {
          ParentPair(r, i, L, R, P, C, x);
        }
      }
  }

  /**
   * Where the grandchild `x`, its parent and its grandparent sit in `t`:
   * the subtree of `x` holds neither of the other two.
   */
  lemma GrandSubFind(t: Tree, g: int, x: int)
    requires Distinct(Ids(t)) && g in Ids(t) && GrandChild(Find(t, g), x)
    ensures x in Ids(t) && x in Ids(Find(t, g)) && x != g
    ensures Find(t, x) == GrandSub(Find(t, g), x)
    ensures forall z :: z in Ids(Find(t, x)) ==> z != g && z != ParentSub(Find(t, g), x).id
  {
    var s := Find(t, g);
    var P := ParentSub(s, x);
    ChildFind(t, g);
    DistinctFind(t, g);
    DistinctNode(s.left, s.id, s.right);
    DistinctNode(P.left, P.id, P.right);
    FindSubset(t, g);
    assert P.id in Ids(s) && P.id in Ids(t);
    ChildFind(t, P.id);
    assert x in Ids(P) && x in Ids(s);
  }

  /** pullUp(x) recolours neither child of `x`, nor anything below them. */
  lemma PulledCalm(t: Tree, g: int, x: int, C: seq<bool>)
    requires Distinct(Ids(t)) && g in Ids(t) && GrandChild(Find(t, g), x)
    requires Calm(Left(Find(t, x)), C) && Calm(Right(Find(t, x)), C)
    ensures Calm(Left(Find(t, x)), FlipAll(C, PullFlips(Find(t, g), x)))
    ensures Calm(Right(Find(t, x)), FlipAll(C, PullFlips(Find(t, g), x)))
  {
    var X := Find(t, x);
    var F := PullFlips(Find(t, g), x);
    var p := ParentSub(Find(t, g), x).id;
    GrandSubFind(t, g, x);
    FindIn(t, g);
    assert F <= {g, x, p};
    FindIn(t, x);
    DistinctFind(t, x);
    DistinctNode(X.left, x, X.right);
    assert Ids(X) == Ids(X.left) + [x] + Ids(X.right);
    forall z | z in Ids(X.left) || z in Ids(X.right)
      ensures z != g && z != p && z != x
    {
      assert z in Ids(X);
    }
    CalmFrame(X.left, C, F);
    CalmFrame(X.right, C, F);
  }
}
