/**
 * The shape of MyTreeMap's entry graph. Entries live in an arena and are
 * named by their slot number; a `Tree` records which slot sits where, and
 * `Linked` says that the arena's left, right and parent references agree
 * with it.
 */
module TreeShapes {

  /** The null reference. */
  const NIL: int := -1

  /** Which entry sits where: `id` is an arena slot. */
  datatype Tree = Nil | Node(left: Tree, id: int, right: Tree)

  /** The reference to the top entry of `t`. */
  function Root(t: Tree): int {
    if t.Nil? then NIL else t.id
  }

  /** The left subtree of the top entry of `t`; nothing below an absent entry. */
  function Left(t: Tree): Tree {
    if t.Node? then t.left else Nil
  }

  /** The right subtree of the top entry of `t`. */
  function Right(t: Tree): Tree {
    if t.Node? then t.right else Nil
  }

  /** The entries of `t`, in in-order. */
  function Ids(t: Tree): seq<int> {
    match t
    case Nil => []
    case Node(l, i, r) => Ids(l) + [i] + Ids(r)
  }

  ghost predicate Distinct(s: seq<int>) {
    forall a, b :: 0 <= a < b < |s| ==> s[a] != s[b]
  }

  /**
   * The arena's `left`, `right` and `parent` references describe `t`, whose
   * top entry has parent `p`.
   */
  ghost predicate Linked(t: Tree, p: int, L: seq<int>, R: seq<int>, P: seq<int>) {
    match t
    case Nil => true
    case Node(l, i, r) =>
      && 0 <= i < |L| && i < |R| && i < |P|
      && P[i] == p && L[i] == Root(l) && R[i] == Root(r)
      && Linked(l, i, L, R, P) && Linked(r, i, L, R, P)
  }

  /** The subtree whose top entry is `x`. */
  function Find(t: Tree, x: int): Tree {
    match t
    case Nil => Nil
    case Node(l, i, r) =>
      if i == x then t else if x in Ids(l) then Find(l, x) else Find(r, x)
  }

  /** The entries that precede the subtree of `x` in in-order. */
  function Before(t: Tree, x: int): seq<int> {
    match t
    case Nil => []
    case Node(l, i, r) =>
      if i == x then [] else if x in Ids(l) then Before(l, x) else Ids(l) + [i] + Before(r, x)
  }

  /** The entries that follow the subtree of `x` in in-order. */
  function After(t: Tree, x: int): seq<int> {
    match t
    case Nil => []
    case Node(l, i, r) =>
      if i == x then [] else if x in Ids(l) then After(l, x) + [i] + Ids(r) else After(r, x)
  }

  /** `t` with the subtree of `x` replaced by `s`. */
  function Replace(t: Tree, x: int, s: Tree): Tree {
    match t
    case Nil => Nil
    case Node(l, i, r) =>
      if i == x then s
      else if x in Ids(l) then Node(Replace(l, x, s), i, r)
      else if x in Ids(r) then Node(l, i, Replace(r, x, s))
      else t
  }

  /** roR on a subtree: the left child moves up. */
  function RotatedRight(t: Tree): Tree
    requires t.Node? && t.left.Node?
  {
    Node(t.left.left, t.left.id, Node(t.left.right, t.id, t.right))
  }

  /** roL on a subtree: the right child moves up. */
  function RotatedLeft(t: Tree): Tree
    requires t.Node? && t.right.Node?
  {
    Node(Node(t.left, t.id, t.right.left), t.right.id, t.right.right)
  }

  // ----- in-order and subtrees -----

  lemma {:induction false} FindIn(t: Tree, x: int)
    requires x in Ids(t)
    ensures Find(t, x).Node? && Find(t, x).id == x
    ensures Ids(t) == Before(t, x) + Ids(Find(t, x)) + After(t, x)
  {
    match t
    case Node(l, i, r) =>
      if i == x {
      } else if x in Ids(l) {
        FindIn(l, x);
        RegroupLeft(Before(l, x), Ids(Find(l, x)), After(l, x), i, Ids(r));
      } else {
        FindIn(r, x);
        RegroupRight(Ids(l), i, Before(r, x), Ids(Find(r, x)), After(r, x));
      }
  }

  /** The entries of a subtree are entries of the tree. */
  lemma FindSubset(t: Tree, x: int)
    requires x in Ids(t)
    ensures forall z :: z in Ids(Find(t, x)) ==> z in Ids(t)
  {
    FindIn(t, x);
  }

  lemma {:induction false} ReplaceIds(t: Tree, x: int, s: Tree)
    requires x in Ids(t)
    ensures Ids(Replace(t, x, s)) == Before(t, x) + Ids(s) + After(t, x)
  {
    match t
    case Node(l, i, r) =>
      if i == x {
      } else if x in Ids(l) {
        ReplaceIds(l, x, s);
        RegroupLeft(Before(l, x), Ids(s), After(l, x), i, Ids(r));
      } else {
        ReplaceIds(r, x, s);
        RegroupRight(Ids(l), i, Before(r, x), Ids(s), After(r, x));
      }
  }

  lemma RegroupLeft(b: seq<int>, f: seq<int>, a: seq<int>, i: int, r: seq<int>)
    ensures (b + f + a) + [i] + r == b + f + (a + [i] + r)
  {
  }

  lemma RegroupRight(l: seq<int>, i: int, b: seq<int>, f: seq<int>, a: seq<int>)
    ensures l + [i] + (b + f + a) == (l + [i] + b) + f + a
  {
  }

  lemma Regroup(a: seq<int>, x: int, b: seq<int>, y: int, c: seq<int>)
    ensures a + [x] + b + [y] + c == a + [x] + (b + [y] + c)
  {
  }

  /** A rotation keeps the in-order sequence of entries. */
  lemma RotateRightIds(t: Tree)
    requires t.Node? && t.left.Node?
    ensures Ids(RotatedRight(t)) == Ids(t)
  {
    var Node(Node(a, y, b), x, c) := t;
    Regroup(Ids(a), y, Ids(b), x, Ids(c));
  }

  /** A rotation keeps the in-order sequence of entries. */
  lemma RotateLeftIds(t: Tree)
    requires t.Node? && t.right.Node?
    ensures Ids(RotatedLeft(t)) == Ids(t)
  {
    var Node(a, x, Node(b, y, c)) := t;
    Regroup(Ids(a), x, Ids(b), y, Ids(c));
  }

  // ----- distinct entries -----

  lemma DistinctNode(l: Tree, i: int, r: Tree)
    requires Distinct(Ids(Node(l, i, r)))
    ensures Distinct(Ids(l)) && Distinct(Ids(r)) && i !in Ids(l) && i !in Ids(r)
    ensures forall y :: y in Ids(l) ==> y !in Ids(r)
  {
    var s := Ids(Node(l, i, r));
    var n := |Ids(l)|;
    assert forall a :: 0 <= a < n ==> s[a] == Ids(l)[a];
    assert s[n] == i;
    assert forall b :: 0 <= b < |Ids(r)| ==> s[n + 1 + b] == Ids(r)[b];
    forall a, b | 0 <= a < n && 0 <= b < |Ids(r)|
      ensures Ids(l)[a] != Ids(r)[b]
    {
      assert s[a] == Ids(l)[a] && s[n + 1 + b] == Ids(r)[b];
    }
  }

  // ----- links -----

  lemma {:induction false} LinkedInRange(t: Tree, p: int, L: seq<int>, R: seq<int>, P: seq<int>)
    requires Linked(t, p, L, R, P)
    ensures forall y :: y in Ids(t) ==> 0 <= y < |L| && y < |R| && y < |P|
  {
    match t
    case Nil =>
    case Node(l, i, r) =>
      LinkedInRange(l, i, L, R, P);
      LinkedInRange(r, i, L, R, P);
  }

  /** The subtree of an entry is described by the arena too, below the entry's parent. */
  lemma {:induction false} LinkedFind(t: Tree, p: int, L: seq<int>, R: seq<int>, P: seq<int>, x: int)
    requires Linked(t, p, L, R, P) && x in Ids(t)
    ensures 0 <= x < |P| && Linked(Find(t, x), P[x], L, R, P)
  {
    match t
    case Node(l, i, r) =>
      if i == x {
      } else if x in Ids(l) {
        LinkedFind(l, i, L, R, P, x);
      } else {
        LinkedFind(r, i, L, R, P, x);
      }
  }

  /** With distinct entries, the subtree of `y` inside the subtree of `x` is the subtree of `y`. */
  lemma {:induction false} FindNested(t: Tree, x: int, y: int)
    requires Distinct(Ids(t)) && x in Ids(t) && y in Ids(Find(t, x))
    ensures Find(t, y) == Find(Find(t, x), y)
  {
    match t
    case Node(l, i, r) =>
      DistinctNode(l, i, r);
      if i == x {
      } else if x in Ids(l) {
        FindIn(l, x);
        FindNested(l, x, y);
      } else {
        FindIn(r, x);
        FindNested(r, x, y);
      }
  }

  lemma {:induction false} DistinctFind(t: Tree, x: int)
    requires Distinct(Ids(t)) && x in Ids(t)
    ensures Distinct(Ids(Find(t, x)))
  {
    match t
    case Node(l, i, r) =>
      DistinctNode(l, i, r);
      if i == x {
      } else if x in Ids(l) {
        DistinctFind(l, x);
      } else {
        DistinctFind(r, x);
      }
  }

  /** With distinct entries, the subtree of a child of `x` is that child's part of the subtree of `x`. */
  lemma ChildFind(t: Tree, x: int)
    requires Distinct(Ids(t)) && x in Ids(t)
    ensures Find(t, x).Node? && Find(t, x).id == x
    ensures Find(t, x).left.Node? ==> Find(t, Find(t, x).left.id) == Find(t, x).left
    ensures Find(t, x).right.Node? ==> Find(t, Find(t, x).right.id) == Find(t, x).right
  {
    FindIn(t, x);
    DistinctFind(t, x);
    var s := Find(t, x);
    DistinctNode(s.left, s.id, s.right);
    if s.left.Node? {
      FindNested(t, x, s.left.id);
    }
    if s.right.Node? {
      FindNested(t, x, s.right.id);
    }
  }

  /** The parent reference of an entry names the entry one of whose children it is. */
  lemma {:induction false} ParentOf(t: Tree, p: int, L: seq<int>, R: seq<int>, P: seq<int>, x: int)
    requires Linked(t, p, L, R, P) && Distinct(Ids(t)) && x in Ids(t)
    ensures 0 <= x < |P|
    ensures x == Root(t) ==> P[x] == p
    ensures x != Root(t) ==> P[x] in Ids(t) && Find(t, P[x]).Node? && (Root(Find(t, P[x]).left) == x || Root(Find(t, P[x]).right) == x)
  {
    match t
    case Node(l, i, r) =>
      DistinctNode(l, i, r);
      if i == x {
      } else if x in Ids(l) {
        ParentOf(l, i, L, R, P, x);
        if x != Root(l) {
          assert P[x] != i;
        }
      } else {
        ParentOf(r, i, L, R, P, x);
        if x != Root(r) {
          assert P[x] != i && P[x] !in Ids(l);
        }
      }
  }

  /** Slot `y` exists in both arenas and keeps its child references. */
  ghost predicate SameChildren(y: int, L: seq<int>, R: seq<int>, L': seq<int>, R': seq<int>) {
    0 <= y < |L| && y < |R| && y < |L'| && y < |R'| && L'[y] == L[y] && R'[y] == R[y]
  }

  /** Slot `y` exists in both arenas and keeps its parent reference. */
  ghost predicate SameParent(y: int, P: seq<int>, P': seq<int>) {
    0 <= y < |P| && y < |P'| && P'[y] == P[y]
  }

  /** Slot `p` exists in both arenas and its child reference to `x`, if any, now names `n`. */
  ghost predicate Redirected(p: int, x: int, n: int, L: seq<int>, R: seq<int>, L': seq<int>, R': seq<int>) {
    && 0 <= p < |L| && p < |R| && p < |L'| && p < |R'|
    && L'[p] == (if L[p] == x then n else L[p])
    && R'[p] == (if R[p] == x then n else R[p])
  }

  /** Links that agree on the entries of `t` (except its top's parent, now `q`) still describe `t`. */
  lemma {:induction false} LinkedFrame(t: Tree, p: int, q: int, L: seq<int>, R: seq<int>, P: seq<int>,
                                        L': seq<int>, R': seq<int>, P': seq<int>)
    requires Linked(t, p, L, R, P) && Distinct(Ids(t))
    requires forall y :: y in Ids(t) ==> SameChildren(y, L, R, L', R')
    requires forall y :: y in Ids(t) && y != Root(t) ==> SameParent(y, P, P')
    requires t.Node? ==> 0 <= t.id < |P'| && P'[t.id] == q
    ensures Linked(t, q, L', R', P')
  {
    match t
    case Nil =>
    case Node(l, i, r) =>
      DistinctNode(l, i, r);
      assert i in Ids(t) && SameChildren(i, L, R, L', R');
      if l.Node? {
        assert l.id in Ids(t) && l.id != i && SameParent(l.id, P, P');
      }
      if r.Node? {
        assert r.id in Ids(t) && r.id != i && SameParent(r.id, P, P');
      }
      LinkedFrame(l, i, i, L, R, P, L', R', P');
      LinkedFrame(r, i, i, L, R, P, L', R', P');
  }

  /**
   * Re-linking one subtree: if the arena now describes `s` where the subtree
   * of `x` was, with the parent's child reference redirected and every other
   * entry untouched, it describes the whole tree with `s` in place.
   */
  lemma {:induction false} ReplaceLinked(t: Tree, p: int, x: int, s: Tree, L: seq<int>, R: seq<int>, P: seq<int>,
                                          L': seq<int>, R': seq<int>, P': seq<int>)
    requires Linked(t, p, L, R, P) && Distinct(Ids(t)) && x in Ids(t)
    requires 0 <= x < |P| && Linked(s, P[x], L', R', P')
    requires forall y :: y in Ids(t) && y !in Ids(Find(t, x)) && y != P[x] ==>
      SameChildren(y, L, R, L', R') && SameParent(y, P, P')
    requires x != Root(t) ==> Redirected(P[x], x, Root(s), L, R, L', R') && SameParent(P[x], P, P')
    ensures Linked(Replace(t, x, s), p, L', R', P')
    decreases t, 1
  {
    match t
    case Node(l, i, r) =>
      if i == x {
      } else if x in Ids(l) {
        ReplaceLinkedLeft(l, i, r, p, x, s, L, R, P, L', R', P');
      } else {
        ReplaceLinkedRight(l, i, r, p, x, s, L, R, P, L', R', P');
      }
  }

  lemma {:induction false} ReplaceLinkedLeft(l: Tree, i: int, r: Tree, p: int, x: int, s: Tree,
                                              L: seq<int>, R: seq<int>, P: seq<int>,
                                              L': seq<int>, R': seq<int>, P': seq<int>)
    requires Linked(Node(l, i, r), p, L, R, P) && Distinct(Ids(Node(l, i, r))) && x in Ids(l)
    requires 0 <= x < |P| && Linked(s, P[x], L', R', P')
    requires forall y :: y in Ids(Node(l, i, r)) && y !in Ids(Find(l, x)) && y != P[x] ==>
      SameChildren(y, L, R, L', R') && SameParent(y, P, P')
    requires Redirected(P[x], x, Root(s), L, R, L', R') && SameParent(P[x], P, P')
    ensures Linked(Node(Replace(l, x, s), i, r), p, L', R', P')
    decreases Node(l, i, r), 0
  {
    var t := Node(l, i, r);
    DistinctNode(l, i, r);
    LinkedInRange(t, p, L, R, P);
    ParentOf(l, i, L, R, P, x);
    FindIn(l, x);
    assert i !in Ids(Find(l, x)) && P[x] !in Ids(r);
    if r.Node? {
      assert r.id in Ids(t) && r.id !in Ids(Find(l, x)) && r.id != P[x];
    }
    LinkedFrame(r, i, i, L, R, P, L', R', P');
    ReplaceLinked(l, i, x, s, L, R, P, L', R', P');
  }

  lemma {:induction false} ReplaceLinkedRight(l: Tree, i: int, r: Tree, p: int, x: int, s: Tree,
                                               L: seq<int>, R: seq<int>, P: seq<int>,
                                               L': seq<int>, R': seq<int>, P': seq<int>)
    requires Linked(Node(l, i, r), p, L, R, P) && Distinct(Ids(Node(l, i, r))) && x in Ids(r) && x != i
    requires 0 <= x < |P| && Linked(s, P[x], L', R', P')
    requires forall y :: y in Ids(Node(l, i, r)) && y !in Ids(Find(r, x)) && y != P[x] ==>
      SameChildren(y, L, R, L', R') && SameParent(y, P, P')
    requires Redirected(P[x], x, Root(s), L, R, L', R') && SameParent(P[x], P, P')
    ensures Linked(Node(l, i, Replace(r, x, s)), p, L', R', P')
    decreases Node(l, i, r), 0
  {
    var t := Node(l, i, r);
    DistinctNode(l, i, r);
    LinkedInRange(t, p, L, R, P);
    ParentOf(r, i, L, R, P, x);
    FindIn(r, x);
    assert i !in Ids(Find(r, x)) && P[x] !in Ids(l);
    if l.Node? {
      assert l.id in Ids(t) && l.id !in Ids(Find(r, x)) && l.id != P[x];
    }
    LinkedFrame(l, i, i, L, R, P, L', R', P');
    ReplaceLinked(r, i, x, s, L, R, P, L', R', P');
  }

  /** After a replacement, the new subtree is found by its top entry. */
  lemma {:induction false} FindReplaced(t: Tree, x: int, s: Tree)
    requires x in Ids(t) && s.Node? && Distinct(Ids(Replace(t, x, s)))
    ensures Find(Replace(t, x, s), s.id) == s
  {
    match t
    case Node(l, i, r) =>
      if i == x {
      } else if x in Ids(l) {
        ReplaceIds(l, x, s);
        DistinctNode(Replace(l, x, s), i, r);
        FindReplaced(l, x, s);
      } else {
        ReplaceIds(r, x, s);
        DistinctNode(l, i, Replace(r, x, s));
        FindReplaced(r, x, s);
      }
  }

  /** Replacing a subtree by one with the same entries keeps the in-order sequence. */
  lemma SameIdsReplace(t: Tree, x: int, s: Tree)
    requires x in Ids(t) && Ids(s) == Ids(Find(t, x))
    ensures Ids(Replace(t, x, s)) == Ids(t)
  {
    FindIn(t, x);
    ReplaceIds(t, x, s);
  }

  /** The parent of an entry other than the top lies outside the entry's own subtree. */
  lemma {:induction false} ParentOutside(t: Tree, p: int, L: seq<int>, R: seq<int>, P: seq<int>, x: int)
    requires Linked(t, p, L, R, P) && Distinct(Ids(t)) && x in Ids(t) && x != Root(t)
    ensures 0 <= x < |P| && P[x] !in Ids(Find(t, x))
  {
    match t
    case Node(l, i, r) =>
      DistinctNode(l, i, r);
      if x in Ids(l) {
        if x != Root(l) {
          ParentOutside(l, i, L, R, P, x);
        }
      } else {
        if x != Root(r) {
          ParentOutside(r, i, L, R, P, x);
        }
      }
  }

  /**
   * Replacing the subtree of `p` by one with the same entries leaves the way
   * to an ancestor `g` of `p` alone: the subtree of `g` just has the
   * replacement inside it.
   */
  lemma {:induction false} ReplaceFindAncestor(t: Tree, g: int, p: int, s: Tree)
    requires Distinct(Ids(t)) && g in Ids(t) && p in Ids(Find(t, g)) && p != g
    requires p in Ids(t) && Ids(s) == Ids(Find(t, p))
    ensures Find(Replace(t, p, s), g) == Replace(Find(t, g), p, s)
  {
    match t
    case Node(l, i, r) =>
      DistinctNode(l, i, r);
      if i == g {
      } else if g in Ids(l) {
        FindIn(l, g);
        SameIdsReplace(l, p, s);
        ReplaceFindAncestor(l, g, p, s);
      } else {
        FindIn(r, g);
        SameIdsReplace(r, p, s);
        ReplaceFindAncestor(r, g, p, s);
      }
  }

  /** Replacing inside the subtree of `g`, then the subtree of `g` itself, is the second replacement alone. */
  lemma {:induction false} ReplaceTwice(t: Tree, g: int, p: int, s1: Tree, s2: Tree)
    requires Distinct(Ids(t)) && g in Ids(t) && p in Ids(Find(t, g)) && p != g
    requires p in Ids(t) && Ids(s1) == Ids(Find(t, p))
    ensures Replace(Replace(t, p, s1), g, s2) == Replace(t, g, s2)
  {
    match t
    case Node(l, i, r) =>
      DistinctNode(l, i, r);
      if i == g {
      } else if g in Ids(l) {
        FindIn(l, g);
        SameIdsReplace(l, p, s1);
        ReplaceTwice(l, g, p, s1, s2);
      } else {
        FindIn(r, g);
        SameIdsReplace(r, p, s1);
        ReplaceTwice(r, g, p, s1, s2);
      }
  }

  // ----- in-order neighbours -----

  /** `y` comes right after `x` in `s`. */
  ghost predicate Follows(s: seq<int>, x: int, y: int) {
    exists i :: 0 <= i < |s| - 1 && s[i] == x && s[i + 1] == y
  }

  /** `x` comes last in `s`. */
  ghost predicate Last(s: seq<int>, x: int) {
    s != [] && s[|s| - 1] == x
  }

  lemma FollowsIn(b: seq<int>, m: seq<int>, a: seq<int>, x: int, y: int)
    requires Follows(m, x, y)
    ensures Follows(b + m + a, x, y)
  {
    var i :| 0 <= i < |m| - 1 && m[i] == x && m[i + 1] == y;
    var s := b + m + a;
    assert s[|b| + i] == x && s[|b| + i + 1] == y;
  }

  /** Inside the subtree of `x`, the first entry of its right subtree comes right after `x`. */
  lemma FollowsRight(l: Tree, x: int, r: Tree)
    requires r != Nil
    ensures Ids(r) != [] && Follows(Ids(Node(l, x, r)), x, Ids(r)[0])
  {
    var s := Ids(Node(l, x, r));
    assert Ids(r) == Ids(r.left) + [r.id] + Ids(r.right);
    assert s[|Ids(l)|] == x && s[|Ids(l)| + 1] == Ids(r)[0];
  }

  /** An entry that ends a left subtree is followed by the top of that subtree's parent. */
  lemma FollowsUp(e: Tree, c: int, r: Tree, x: int)
    requires Last(Ids(e), x)
    ensures Follows(Ids(Node(e, c, r)), x, c)
  {
    var s := Ids(Node(e, c, r));
    assert s[|Ids(e)| - 1] == x && s[|Ids(e)|] == c;
  }

  /** Distinct entries have one neighbour: `Follows` and `Last` pin down a position. */
  lemma FollowsAt(s: seq<int>, i: int, x: int, y: int)
    requires Distinct(s) && 0 <= i < |s| && s[i] == x
    ensures Follows(s, x, y) ==> i + 1 < |s| && s[i + 1] == y
    ensures Last(s, x) ==> i == |s| - 1
  {
    if Follows(s, x, y) {
      var j :| 0 <= j < |s| - 1 && s[j] == x && s[j + 1] == y;
      assert i == j;
    }
  }

  /** With distinct entries, an entry that has a follower is not the last one. */
  lemma FollowsNotLast(s: seq<int>, x: int, y: int)
    requires Distinct(s) && Follows(s, x, y)
    ensures !Last(s, x)
  {
    var i :| 0 <= i < |s| - 1 && s[i] == x && s[i + 1] == y;
    FollowsAt(s, i, x, y);
  }
}
