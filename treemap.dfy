/**
 * A red-black tree map with top-down insertion (MyTreeMap.java).
 *
 * Entries live in an arena: slot `i` holds the key, value, colour and the
 * left, right and parent references of one `SimpleEntry`, and `NIL` (-1) is
 * Java's `null`. Entries are never freed (`remove` is a stub and `clear`
 * only drops the root), so a slot number names one entry for the map's whole
 * life. The ghost `shape` records which entry sits where; `Wf` ties the
 * arena's references to it. Keys are `Integer`s in their natural order; a
 * stored value may be `null` (`None`).
 */
module TreeMaps {
  import opened MapCommon
  import opened TreeShapes
  import opened TreeSearch
  import opened TreeLinks
  import opened TreePullUp
  import opened TreeColors

  /** The references once put hangs the new entry `|L|` below `e`, on the left or on the right. */
  function AttachRefs(L: seq<int>, R: seq<int>, P: seq<int>, e: int, left: bool): (seq<int>, seq<int>, seq<int>)
    requires 0 <= e < |L| && e < |R|
  {
    var n := |L|;
    if left then (L[e := n] + [NIL], R + [NIL], P + [e])
    else (L + [NIL], R[e := n] + [NIL], P + [e])
  }

  /** AttachRefs leaves the parent of `e` and the children of any other entry `q` as they were. */
  lemma AttachRefsKeep(L: seq<int>, R: seq<int>, P: seq<int>, e: int, left: bool, q: int)
    requires |R| == |L| && |P| == |L| && 0 <= e < |L| && q != e
    ensures var refs := AttachRefs(L, R, P, e, left);
      At(refs.2, e) == At(P, e) && At(refs.0, q) == At(L, q) && At(refs.1, q) == At(R, q)
  {
  }

  /** The leaf hung below `e` is a subtree of its own in the new tree. */
  lemma HungLeaf(t: Tree, e: int, n: int, left: bool)
    requires e in Ids(t) && Find(t, e).Node?
    requires Distinct(Ids(Replace(t, e, Hang(Find(t, e), n, left))))
    ensures Find(Replace(t, e, Hang(Find(t, e), n, left)), n) == Leaf(n)
  {
    var s := Hang(Find(t, e), n, left);
    var t' := Replace(t, e, s);
    FindIn(t, e);
    ReplaceIds(t, e, s);
    assert Ids(s) == Ids(s.left) + [e] + Ids(s.right);
    assert e in Ids(t');
    FindReplaced(t, e, s);
    ChildFind(t', e);
  }

  /** The references AttachRefs assigns describe the tree with the leaf `|L|` hung below `e`. */
  lemma {:induction false} AttachRefsLinked(t: Tree, e: int, left: bool, L: seq<int>, R: seq<int>, P: seq<int>)
    requires Linked(t, NIL, L, R, P) && Distinct(Ids(t)) && |R| == |L| && |P| == |L|
    requires e in Ids(t) && if left then Left(Find(t, e)).Nil? else Right(Find(t, e)).Nil?
    ensures 0 <= e < |L| && Find(t, e).Node?
    ensures var t' := Replace(t, e, Hang(Find(t, e), |L|, left));
      var refs := AttachRefs(L, R, P, e, left);
      && Linked(t', NIL, refs.0, refs.1, refs.2) && Root(t') == Root(t)
      && Ids(t') == Before(t, e) + (if left then [|L|] + Ids(Find(t, e)) else Ids(Find(t, e)) + [|L|]) + After(t, e)
  {
    LinkedInRange(t, NIL, L, R, P);
    LinkedFind(t, NIL, L, R, P, e);
    FindIn(t, e);
    var n := |L|;
    var refs := AttachRefs(L, R, P, e, left);
    var L', R', P' := refs.0, refs.1, refs.2;
    assert n !in Ids(t);
    assert forall z :: 0 <= z < |L| && z != e ==> L'[z] == L[z] && R'[z] == R[z];
    assert forall z :: 0 <= z < |P| ==> P'[z] == P[z];
    assert forall z :: z in Ids(t) && z != e ==> SameChildren(z, L, R, L', R') && SameParent(z, P, P');
    AttachLinked(t, e, n, left, L, R, P, L', R', P');
  }

  /**
   * put's new leaf on the whole arena: with the references AttachRefs
   * assigns and the key and value appended, the arena describes the tree
   * with the leaf hung below `e`, still a search tree, holding one more
   * entry and the map with `k` now bound to `v`.
   */
  lemma {:induction false} AttachWf<T>(t: Tree, e: int, k: int, v: T, left: bool, K: seq<int>, V: seq<T>, L: seq<int>, R: seq<int>, P: seq<int>)
    requires Linked(t, NIL, L, R, P) && Ascending(Ids(t), K)
    requires |V| == |K| && |L| == |K| && |R| == |K| && |P| == |K|
    requires OnPath(t, e, k, K) && 0 <= e < |K| && K[e] != k && left == (k < K[e])
    requires if left then Left(Find(t, e)).Nil? else Right(Find(t, e)).Nil?
    ensures e in Ids(t) && Find(t, e).Node? && k !in KeySet(Ids(t), K)
    ensures var t' := Replace(t, e, Hang(Find(t, e), |K|, left));
      var refs := AttachRefs(L, R, P, e, left);
      && Linked(t', NIL, refs.0, refs.1, refs.2) && Root(t') == Root(t)
      && Ascending(Ids(t'), K + [k]) && |Ids(t')| == |Ids(t)| + 1 && |K| in Ids(t')
      && MapOf(Ids(t'), K + [k], V + [v]) == MapOf(Ids(t), K, V)[k := v]
  {
    AscendingDistinct(Ids(t), K);
    OnPathIn(t, e, k, K);
    AttachRefsLinked(t, e, left, L, R, P);
    InsertLeafOrder(t, e, k, K, V, v, left);
    FindIn(t, e);
  }

  class TreeMap<V> {
    var keys: seq<int>
    var vals: seq<Option<V>>
    var colors: seq<bool>
    var lefts: seq<int>
    var rights: seq<int>
    var parents: seq<int>
    var root: int
    var size: int
    var modCount: int
    ghost var shape: Tree

    /** The arena's references describe `shape`, a search tree whose entry count is `size`. */
    ghost predicate Wf()
      reads this
    {
      && |vals| == |keys| && |colors| == |keys| && |lefts| == |keys| && |rights| == |keys| && |parents| == |keys|
      && Linked(shape, NIL, lefts, rights, parents)
      && Ascending(Ids(shape), keys)
      && root == Root(shape)
      && size == |Ids(shape)|
    }

    /** Between operations the root, if any, is black. */
    ghost predicate Valid()
      reads this
    {
      Wf() && (root != NIL ==> 0 <= root < |colors| && colors[root] == BLACK)
    }

    /** The (key, value) pairs the tree holds. */
    ghost function Contents(): map<int, Option<V>>
      reads this
    {
      MapOf(Ids(shape), keys, vals)
    }

    /** Every entry of the tree has a slot, and no slot appears twice. */
    lemma InRange()
      requires Wf()
      ensures Distinct(Ids(shape))
      ensures forall y :: y in Ids(shape) ==> 0 <= y < |keys|
      ensures Contents().Keys == KeySet(Ids(shape), keys)
    {
      AscendingDistinct(Ids(shape), keys);
      LinkedInRange(shape, NIL, lefts, rights, parents);
      MapOfKeys(Ids(shape), keys, vals);
    }

    /** The tree holds one entry per key. */
    lemma SizeIsCardinality()
      requires Wf()
      ensures |Contents()| == size
    {
      InRange();
      KeySetSize(Ids(shape), keys);
    }

    /** MyTreeMap(): no entries. */
    constructor ()
      ensures Valid() && Contents() == map[] && size == 0 && modCount == 0
      ensures NoRedRed(shape, colors)
    {
      keys, vals, colors := [], [], [];
      lefts, rights, parents := [], [], [];
      root, size, modCount := NIL, 0, 0;
      shape := Nil;
      new;
      assert Ids(shape) == [];
      assert Ascending(Ids(shape), keys);
      assert Contents() == map[];
    }

    /** clear(): drops every entry; the modification count is left as it was. */
    method Clear()
      requires Valid()
      modifies this
      ensures Valid() && Contents() == map[] && size == 0 && modCount == old(modCount)
      ensures NoRedRed(shape, colors)
    {
      root := NIL;
      size := 0;
      shape := Nil;
      assert Ids(shape) == [];
    }

    /** findEntry(key): walks down by comparing keys; NIL when the key is absent. */
    method FindEntry(k: int) returns (e: int)
      requires Valid()
      ensures e == NIL <==> k !in Contents()
      ensures e != NIL ==> e in Ids(shape) && 0 <= e < |keys| && keys[e] == k
    {
      InRange();
      var cur := root;
      while cur != NIL && keys[cur] != k
        invariant cur != NIL ==> OnPath(shape, cur, k, keys)
        invariant cur == NIL ==> k !in KeySet(Ids(shape), keys)
        invariant cur != NIL ==> cur in Ids(shape) && 0 <= cur < |keys|
        decreases if cur == NIL then 0 else SearchLen(Find(shape, cur), k, keys)
      {
        Descend(shape, k, keys, lefts, rights, parents, cur);
        FindIn(shape, cur);
        if keys[cur] > k {
          cur := lefts[cur];
        } else {
          cur := rights[cur];
        }
        if cur != NIL {
          OnPathIn(shape, cur, k, keys);
        }
      }
      if cur != NIL {
        MapOfKeys(Ids(shape), keys, vals);
        assert keys[cur] in KeySet(Ids(shape), keys);
      }
      return cur;
    }

    /** containsKey(key). */
    method ContainsKey(k: int) returns (found: bool)
      requires Valid()
      ensures found <==> k in Contents()
    {
      var e := FindEntry(k);
      return e != NIL;
    }

    /** get(key): the stored value, or null when the key is absent (or maps to null). */
    method Get(k: int) returns (r: Option<V>)
      requires Valid()
      ensures k in Contents() ==> r == Contents()[k]
      ensures k !in Contents() ==> r == None
    {
      var e := FindEntry(k);
      if e == NIL {
        return None;
      }
      MapOfLookup(Ids(shape), keys, vals, e);
      return vals[e];
    }

    /** `t` is an entry, and it is red. */
    ghost predicate Red(t: Tree)
      reads this
    {
      IsRed(t, colors)
    }

    /** isRight(x): `x` hangs as its parent's right child. */
    function IsRight(x: int): (r: bool)
      reads this
      requires 0 <= x < |parents| && 0 <= parents[x] < |rights|
      ensures Wf() && x in Ids(shape) && x != root ==>
        && (r <==> Root(Right(Find(shape, parents[x]))) == x)
        && (!r <==> Root(Left(Find(shape, parents[x]))) == x)
    {
      SideOf(x);
      rights[parents[x]] == x
    }

    lemma SideOf(x: int)
      ensures Wf() && x in Ids(shape) && x != root ==>
        && 0 <= x < |parents| && 0 <= parents[x] < |rights|
        && (rights[parents[x]] == x <==> Root(Right(Find(shape, parents[x]))) == x)
        && (rights[parents[x]] != x <==> Root(Left(Find(shape, parents[x]))) == x)
    {
      if Wf() && x in Ids(shape) && x != root {
        InRange();
        ParentSide(shape, lefts, rights, parents, x);
      }
    }

    /** hasRedSuccessors(x): both children exist and are red. */
    function HasRedSuccessors(x: int): (r: bool)
      reads this
      requires Wf() && x in Ids(shape)
      ensures r <==> Red(Left(Find(shape, x))) && Red(Right(Find(shape, x)))
    {
      Children(x);
      if lefts[x] == NIL || rights[x] == NIL then false
      else if colors[lefts[x]] == RED && colors[rights[x]] == RED then true
      else false
    }

    /** The child references of an entry of the tree. */
    lemma Children(x: int)
      requires Wf() && x in Ids(shape)
      ensures 0 <= x < |keys| && Find(shape, x).Node? && Find(shape, x).id == x
      ensures lefts[x] == Root(Left(Find(shape, x))) && rights[x] == Root(Right(Find(shape, x)))
      ensures lefts[x] != NIL <==> Left(Find(shape, x)).Node?
      ensures rights[x] != NIL <==> Right(Find(shape, x)).Node?
      ensures lefts[x] != NIL ==> lefts[x] in Ids(shape) && 0 <= lefts[x] < |keys| && parents[lefts[x]] == x
      ensures rights[x] != NIL ==> rights[x] in Ids(shape) && 0 <= rights[x] < |keys| && parents[rights[x]] == x
    {
      InRange();
      ChildParent(shape, lefts, rights, parents, x);
      FindSubset(shape, x);
      var s := Find(shape, x);
      assert s.left.Node? ==> s.left.id in Ids(s);
      assert s.right.Node? ==> s.right.id in Ids(s);
    }

    /** The entries flipColor(x) recolours: both children, and `x` itself unless it is the root. */
    ghost function FlipColorSet(x: int): set<int>
      reads this
    {
      {Root(Left(Find(shape, x))), Root(Right(Find(shape, x)))} + if x != root then {x} else {}
    }

    /**
     * flipColor(x): a black entry with two red children becomes red and its
     * children black; the root stays black.
     */
    method FlipColor(x: int)
      requires Valid() && x in Ids(shape) && Left(Find(shape, x)).Node? && Right(Find(shape, x)).Node?
      modifies this
      ensures Valid() && shape == old(shape) && root == old(root)
      ensures colors == FlipAll(old(colors), old(FlipColorSet(x)))
      ensures keys == old(keys) && vals == old(vals) && size == old(size) && modCount == old(modCount)
      ensures lefts == old(lefts) && rights == old(rights) && parents == old(parents)
    {
      Children(x);
      DistinctChildren(x);
      if x != root {
        colors := colors[x := !colors[x]];
      }
      colors := colors[lefts[x] := !colors[lefts[x]]];
      colors := colors[rights[x] := !colors[rights[x]]];
    }

    /** An entry, its children and its parent are four different entries. */
    lemma DistinctChildren(x: int)
      requires Wf() && x in Ids(shape)
      ensures Find(shape, x).Node?
      ensures var s := Find(shape, x);
        && (s.left.Node? ==> s.left.id != x && s.left.id != root)
        && (s.right.Node? ==> s.right.id != x && s.right.id != root)
        && (s.left.Node? && s.right.Node? ==> s.left.id != s.right.id)
    {
      InRange();
      ChildFind(shape, x);
      DistinctFind(shape, x);
      var s := Find(shape, x);
      DistinctNode(s.left, x, s.right);
      assert s.left.Node? ==> s.left.id in Ids(s.left);
      assert s.right.Node? ==> s.right.id in Ids(s.right);
      Children(x);
      assert shape.Node? ==> parents[shape.id] == NIL;
    }

    /** What roR(top) needs of the arena: the entries it touches exist, and its assignments re-link the rotated tree. */
    lemma RightRotationReady(top: int)
      requires Wf() && top in Ids(shape) && Left(Find(shape, top)).Node?
      ensures 0 <= top < |keys| && 0 <= lefts[top] < |keys| && lefts[top] != top
      ensures var y := lefts[top]; rights[y] != NIL ==> 0 <= rights[y] < |keys|
      ensures top != root ==> 0 <= parents[top] < |keys| && parents[top] != lefts[top]
      ensures var k := RightRotatedRefs(lefts, rights, parents, top, top == root);
        var t' := Replace(shape, top, RotatedRight(Find(shape, top)));
        && |k.0| == |keys| && |k.1| == |keys| && |k.2| == |keys|
        && Linked(t', NIL, k.0, k.1, k.2) && Ids(t') == Ids(shape)
        && Root(t') == if top == root then lefts[top] else root
    {
      InRange();
      RotationEntries(shape, lefts, rights, parents, top, true);
      RightRotatedRefsLinked(shape, lefts, rights, parents, top);
    }

    /** What roL(top) needs of the arena: the entries it touches exist, and its assignments re-link the rotated tree. */
    lemma LeftRotationReady(top: int)
      requires Wf() && top in Ids(shape) && Right(Find(shape, top)).Node?
      ensures 0 <= top < |keys| && 0 <= rights[top] < |keys| && rights[top] != top
      ensures var y := rights[top]; lefts[y] != NIL ==> 0 <= lefts[y] < |keys|
      ensures top != root ==> 0 <= parents[top] < |keys| && parents[top] != rights[top]
      ensures var k := LeftRotatedRefs(lefts, rights, parents, top, top == root);
        var t' := Replace(shape, top, RotatedLeft(Find(shape, top)));
        && |k.0| == |keys| && |k.1| == |keys| && |k.2| == |keys|
        && Linked(t', NIL, k.0, k.1, k.2) && Ids(t') == Ids(shape)
        && Root(t') == if top == root then rights[top] else root
    {
      InRange();
      RotationEntries(shape, lefts, rights, parents, top, false);
      LeftRotatedRefsLinked(shape, lefts, rights, parents, top);
    }

    /** The re-linking half of roR/roL once `top` is known to have the child that moves up. */
    method RelinkRight(top: int)
      requires Wf() && top in Ids(shape) && Left(Find(shape, top)).Node?
      modifies this
      ensures Wf() && Ids(shape) == old(Ids(shape))
      ensures keys == old(keys) && vals == old(vals) && colors == old(colors)
      ensures size == old(size) && modCount == old(modCount)
      ensures shape == Replace(old(shape), top, RotatedRight(Find(old(shape), top)))
    {
      RightRotationReady(top);
      ghost var t, isRoot := shape, top == root;
      var L, R, P := lefts, rights, parents;
      var y := L[top];
      P := P[y := P[top]];
      if top == root {
        root := y;
      } else {
        if IsRight(top) {
          R := R[P[top] := y];
        } else {
          L := L[P[top] := y];
        }
      }
      var b := R[y];
      R := R[y := top];
      if b != NIL {
        P := P[b := top];
      }
      P := P[top := y];
      L := L[top := b];
      assert (L, R, P) == RightRotatedRefs(lefts, rights, parents, top, isRoot);
      lefts, rights, parents := L, R, P;
      shape := Replace(t, top, RotatedRight(Find(t, top)));
      assert Ids(shape) == Ids(t) && Linked(shape, NIL, lefts, rights, parents);
      assert Ascending(Ids(shape), keys);
    }

    /**
     * roR(top): the left child of `top` takes its place. A null `top` is
     * left alone; a missing left child is an IllegalArgumentException.
     */
    method RotateRight(top: int) returns (r: Result<()>)
      requires Wf() && (top == NIL || top in Ids(shape))
      modifies this
      ensures Wf() && Ids(shape) == old(Ids(shape))
      ensures keys == old(keys) && vals == old(vals) && colors == old(colors)
      ensures size == old(size) && modCount == old(modCount)
      ensures top == NIL ==> r == Ok(()) && unchanged(this)
      ensures top != NIL && Left(Find(old(shape), top)).Nil? ==> r == Err(IllegalArgument) && unchanged(this)
      ensures top != NIL && Left(Find(old(shape), top)).Node? ==>
        r == Ok(()) && shape == Replace(old(shape), top, RotatedRight(Find(old(shape), top)))
    {
      if top == NIL {
        return Ok(());
      }
      Children(top);
      if lefts[top] == NIL {
        return Err(IllegalArgument);
      }
      RelinkRight(top);
      return Ok(());
    }

    /** The re-linking half of roR/roL once `top` is known to have the child that moves up. */
    method RelinkLeft(top: int)
      requires Wf() && top in Ids(shape) && Right(Find(shape, top)).Node?
      modifies this
      ensures Wf() && Ids(shape) == old(Ids(shape))
      ensures keys == old(keys) && vals == old(vals) && colors == old(colors)
      ensures size == old(size) && modCount == old(modCount)
      ensures shape == Replace(old(shape), top, RotatedLeft(Find(old(shape), top)))
    {
      LeftRotationReady(top);
      ghost var t, isRoot := shape, top == root;
      var L, R, P := lefts, rights, parents;
      var y := R[top];
      P := P[y := P[top]];
      if top == root {
        root := y;
      } else {
        if IsRight(top) {
          R := R[P[top] := y];
        } else {
          L := L[P[top] := y];
        }
      }
      var b := L[y];
      L := L[y := top];
      if b != NIL {
        P := P[b := top];
      }
      P := P[top := y];
      R := R[top := b];
      assert (L, R, P) == LeftRotatedRefs(lefts, rights, parents, top, isRoot);
      lefts, rights, parents := L, R, P;
      shape := Replace(t, top, RotatedLeft(Find(t, top)));
      assert Ids(shape) == Ids(t) && Linked(shape, NIL, lefts, rights, parents);
      assert Ascending(Ids(shape), keys);
    }

    /**
     * roL(top): the right child of `top` takes its place. A null `top` is
     * left alone; a missing right child is an IllegalArgumentException.
     */
    method RotateLeft(top: int) returns (r: Result<()>)
      requires Wf() && (top == NIL || top in Ids(shape))
      modifies this
      ensures Wf() && Ids(shape) == old(Ids(shape))
      ensures keys == old(keys) && vals == old(vals) && colors == old(colors)
      ensures size == old(size) && modCount == old(modCount)
      ensures top == NIL ==> r == Ok(()) && unchanged(this)
      ensures top != NIL && Right(Find(old(shape), top)).Nil? ==> r == Err(IllegalArgument) && unchanged(this)
      ensures top != NIL && Right(Find(old(shape), top)).Node? ==>
        r == Ok(()) && shape == Replace(old(shape), top, RotatedLeft(Find(old(shape), top)))
    {
      if top == NIL {
        return Ok(());
      }
      Children(top);
      if rights[top] == NIL {
        return Err(IllegalArgument);
      }
      RelinkLeft(top);
      return Ok(());
    }

    /** The parent reference of an entry below the top. */
    lemma ParentRef(x: int)
      requires Wf() && x in Ids(shape) && x != root
      ensures 0 <= x < |keys| && Find(shape, x).Node? && Find(shape, x).id == x
      ensures 0 <= parents[x] < |keys| && parents[x] in Ids(shape)
      ensures Find(shape, parents[x]).Node? && Find(shape, parents[x]).id == parents[x]
    {
      InRange();
      ParentSide(shape, lefts, rights, parents, x);
      FindIn(shape, x);
    }

    /** isDoubleRed(x): `x` and its parent are both red. */
    function IsDoubleRed(x: int): (r: bool)
      reads this
      requires Wf() && x in Ids(shape) && x != root
      ensures r <==> Red(Find(shape, x)) && Red(Find(shape, At(parents, x)))
    {
      ParentRef(x);
      colors[x] == RED && colors[parents[x]] == RED
    }

    /** The grandparent reference of `x`; NIL where there is none. */
    ghost function Grand(x: int): int
      reads this
    {
      At(parents, At(parents, x))
    }

    /** The entries pullUp(x) recolours: the grandparent, and `x` itself (inner grandchild) or its parent (outer). */
    ghost function PullUpFlips(x: int): set<int>
      reads this
    {
      {Grand(x), if Inner(Find(shape, Grand(x)), x) then x else At(parents, x)}
    }

    /**
     * A red entry under a red parent has a grandparent, since the root is
     * black; the child references on the way down say where `x` sits below it.
     */
    lemma GrandOf(x: int)
      requires Valid() && x in Ids(shape) && x != root && 0 <= x < |parents|
      requires colors[x] == RED && Red(Find(shape, parents[x]))
      ensures var p := parents[x];
        && 0 <= p < |keys| && p in Ids(shape) && p != root && colors[p] == RED
        && 0 <= parents[p] < |keys| && parents[p] in Ids(shape) && Grand(x) == parents[p]
        && (lefts[p] == x) != (rights[p] == x)
        && (lefts[parents[p]] == p) != (rights[parents[p]] == p)
        && x != p && x != parents[p] && p != parents[p]
      ensures var p := parents[x]; var g := parents[p]; var s := Find(shape, g);
        && GrandChild(s, x) && s.id == g
        && lefts[g] == Root(s.left) && rights[g] == Root(s.right)
        && (OuterLeft(s, x) <==> lefts[g] == p && lefts[p] == x)
        && (OuterRight(s, x) <==> rights[g] == p && rights[p] == x)
        && (InnerLeft(s, x) <==> lefts[g] == p && rights[p] == x)
        && (InnerRight(s, x) <==> rights[g] == p && lefts[p] == x)
    {
      InRange();
      ParentSide(shape, lefts, rights, parents, x);
      var p := parents[x];
      GrandParent(shape, lefts, rights, parents, x);
      ParentSide(shape, lefts, rights, parents, p);
      var g := parents[p];
      ChildParent(shape, lefts, rights, parents, g);
      var s := Find(shape, g);
      DistinctFind(shape, g);
      DistinctNode(s.left, g, s.right);
      assert s.left.Node? ==> s.left.id in Ids(s.left) && (s.left.left.Node? ==> s.left.left.id in Ids(s.left)) && (s.left.right.Node? ==> s.left.right.id in Ids(s.left));
      assert s.right.Node? ==> s.right.id in Ids(s.right) && (s.right.left.Node? ==> s.right.left.id in Ids(s.right)) && (s.right.right.Node? ==> s.right.right.id in Ids(s.right));
    }

    /** Where an inner grandchild `x` hangs below its grandparent `g`. */
    lemma InnerStart(g: int, x: int)
      requires Wf() && g in Ids(shape) && Inner(Find(shape, g), x)
      ensures var s := Find(shape, g);
        && 0 <= x < |parents| && 0 <= parents[x] < |rights| && x in Ids(shape) && x != root
        && parents[x] in Ids(shape) && parents[x] != g
        && Find(shape, parents[x]) == (if InnerLeft(s, x) then s.left else s.right)
        && parents[x] == (if InnerLeft(s, x) then s.left.id else s.right.id)
        && (rights[parents[x]] == x <==> InnerLeft(s, x))
    {
      InRange();
      var s := Find(shape, g);
      ChildFind(shape, g);
      FindSubset(shape, g);
      DistinctFind(shape, g);
      DistinctNode(s.left, g, s.right);
      var q := if InnerLeft(s, x) then s.left else s.right;
      assert q.id in Ids(s);
      ChildParent(shape, lefts, rights, parents, q.id);
      DistinctFind(shape, q.id);
      DistinctNode(q.left, q.id, q.right);
      assert x in Ids(q) && x in Ids(s);
      assert shape.Node? ==> parents[shape.id] == NIL;
      assert q.left.Node? ==> q.left.id in Ids(q.left);
      assert q.right.Node? ==> q.right.id in Ids(q.right);
    }

    /**
     * The loop of pullUp for an inner grandchild: it rotates twice at the
     * current parent of `x`, which lifts `x` above its parent and then above
     * its grandparent `g`.
     */
    method InnerTurns(x: int, ghost g: int)
      requires Wf() && g in Ids(shape) && Inner(Find(shape, g), x)
      modifies this
      ensures Wf() && shape == Replace(old(shape), g, PulledUp(old(Find(shape, g)), x))
      ensures keys == old(keys) && vals == old(vals) && colors == old(colors)
      ensures size == old(size) && modCount == old(modCount)
    {
      ghost var t := shape;
      ghost var s := Find(t, g);
      InRange();
      for i := 0 to 2
        invariant Wf() && keys == old(keys) && vals == old(vals) && colors == old(colors)
        invariant size == old(size) && modCount == old(modCount)
        invariant i == 0 ==> shape == t
        invariant i == 1 ==> shape == InnerMid(t, g, x)
        invariant i == 2 ==> shape == Replace(t, g, PulledUp(s, x))
      {
        if i == 0 {
          InnerStart(g, x);
        } else {
          InnerMidLinks(t, lefts, rights, parents, g, x);
        }
        if IsRight(x) {
          var _ := RotateLeft(parents[x]);
        } else {
          var _ := RotateRight(parents[x]);
        }
      }
    }

    /**
     * pullUp(x): a red `x` under a red parent is lifted. An outer grandchild
     * recolours its parent and grandparent and rotates once at the
     * grandparent; an inner one recolours itself and its grandparent and
     * rotates twice at its current parent. The subtree of the grandparent
     * becomes `PulledUp`, and the root stays black.
     */
    method PullUp(x: int)
      requires Valid() && x in Ids(shape) && x != root && 0 <= x < |parents|
      requires colors[x] == RED && Red(Find(shape, parents[x]))
      modifies this
      ensures old(Grand(x) in Ids(shape) && GrandChild(Find(shape, Grand(x)), x))
      ensures shape == Replace(old(shape), old(Grand(x)), PulledUp(old(Find(shape, Grand(x))), x))
      ensures colors == FlipAll(old(colors), old(PullUpFlips(x)))
      ensures colors[x] == if old(Inner(Find(shape, Grand(x)), x)) then BLACK else RED
      ensures Valid() && Ids(shape) == old(Ids(shape))
      ensures keys == old(keys) && vals == old(vals) && size == old(size) && modCount == old(modCount)
    {
      GrandOf(x);
      ghost var t, c0 := shape, colors;
      var p := parents[x];
      var g := parents[p];
      ghost var s := Find(t, g);
      assert PullUpFlips(x) == {g, if Inner(s, x) then x else p};
      if IsRight(x) != IsRight(p) {
        // an inner grandchild
        assert Inner(s, x);
        colors := colors[g := !colors[g]];
        colors := colors[x := !colors[x]];
        assert colors == FlipAll(c0, {g, x});
        InnerTurns(x, g);
      } else {
        // an outer grandchild
        assert !Inner(s, x);
        colors := colors[g := !colors[g]];
        colors := colors[p := !colors[p]];
        assert colors == FlipAll(c0, {g, p});
        if IsRight(x) {
          var _ := RotateLeft(g);
        } else {
          var _ := RotateRight(g);
        }
      }
      RootReplace(t, g, PulledUp(s, x));
      PulledUpIds(s, x);
      SameIdsReplace(t, g, PulledUp(s, x));
    }

    /** The colours once fixDuringInsert(x) has run flipColor(x), which it does when both children of `x` are red. */
    ghost function FlippedColors(x: int): seq<bool>
      reads this
    {
      if Wf() && x in Ids(shape) && HasRedSuccessors(x) then FlipAll(colors, FlipColorSet(x)) else colors
    }

    /** fixDuringInsert(x) pulls `x` up: after the colour flip, `x` and its parent are both red. */
    ghost predicate WillPull(x: int)
      reads this
    {
      var c := FlippedColors(x);
      x != root && 0 <= x < |c| && 0 <= At(parents, x) < |c| && c[x] == RED && c[At(parents, x)] == RED
    }

    /** The other child of `q` than `y`: the sibling of `y` when `q` is its parent. */
    ghost function Other(q: int, y: int): int
      reads this
    {
      if At(lefts, q) == y then At(rights, q) else At(lefts, q)
    }

    /** `y` and its sibling are not both red under the colours `C`. */
    ghost predicate PairSafe(y: int, C: seq<bool>)
      reads this
    {
      !(RedId(y, C) && RedId(Other(At(parents, y), y), C))
    }

    /**
     * What the descent for `k` knows at `x` before fixDuringInsert(x): `x`
     * swaps colours with its children only if its parent and its uncle are
     * not both red, and a red `x` with a red sibling sends the lookup on to
     * a calm entry.
     */
    ghost predicate Guarded(x: int, k: int)
      reads this
    {
      && (PairSafe(At(parents, x), colors) || !(Red(Left(Find(shape, x))) && Red(Right(Find(shape, x)))))
      && (!PairSafe(x, colors) ==> Calm(KeyChild(Find(shape, x), keys, k), colors))
    }

    /** The state in which fixDuringInsert(x) runs on the descent for `k`. */
    ghost predicate Descending(x: int, k: int)
      reads this
    {
      OnPath(shape, x, k, keys) && NoRedRed(shape, colors) && Guarded(x, k)
    }

    /**
     * What fixDuringInsert(x) leaves for the descent for `k` when `x` does
     * not hold `k`: the next entry is guarded, and where there is none, `x`
     * and its sibling are not both red.
     */
    ghost predicate Stepped(x: int, k: int)
      reads this
    {
      0 <= x < |keys| && keys[x] != k ==>
        var c := KeyChild(Find(shape, x), keys, k);
        && (c.Node? ==> Guarded(c.id, k))
        && (c.Nil? ==> PairSafe(x, colors))
    }

    /**
     * fixDuringInsert(x): on the way down, an entry with two red children
     * swaps colours with them, and an entry left red under a red parent is
     * pulled up. On the descent for `k`, no red entry has a red child
     * afterwards, and the next step is guarded.
     */
    method FixDuringInsert(x: int, ghost k: int)
      requires Valid() && x in Ids(shape)
      modifies this
      ensures old(WillPull(x)) ==> old(Grand(x) in Ids(shape) && GrandChild(Find(shape, Grand(x)), x))
      ensures shape == if old(WillPull(x)) then Replace(old(shape), old(Grand(x)), PulledUp(old(Find(shape, Grand(x))), x)) else old(shape)
      ensures colors == FlipAll(old(FlippedColors(x)), if old(WillPull(x)) then old(PullUpFlips(x)) else {})
      ensures 0 <= x < |colors| && colors[x] == if old(WillPull(x)) && old(Inner(Find(shape, Grand(x)), x)) then BLACK else old(FlippedColors(x))[x]
      ensures Valid() && keys == old(keys) && vals == old(vals) && size == old(size) && modCount == old(modCount)
      ensures old(Descending(x, k)) ==> NoRedRed(shape, colors) && Stepped(x, k)
    {
      ghost var ok := Descending(x, k);
      ghost var flipped := HasRedSuccessors(x);
      if HasRedSuccessors(x) {
        if ok {
          FlipReady(x);
        }
        FlipColor(x);
      } else if ok {
        QuietStep(x, k);
      }
      if x != root && IsDoubleRed(x) {
        ParentRef(x);
        ghost var t1, c1, g := shape, colors, Grand(x);
        if ok {
          PullReadyHere(x);
        }
        PullUp(x);
        if ok {
          Pulled(t1, c1, g, x, k);
        }
      } else if ok && flipped {
        Settled(x);
        CalmStep(x, k);
      }
    }

    /**
     * Before flipColor(x) in a tree that keeps the rule, with the parent and
     * the uncle of `x` not both red: after the flip, the only red entry a red
     * parent may have is `x`, the children of `x` are calm, and the parent
     * and the uncle keep their colours.
     */
    lemma FlipReady(x: int)
      requires Wf() && x in Ids(shape) && NoRedRed(shape, colors)
      requires Red(Left(Find(shape, x))) && Red(Right(Find(shape, x))) && PairSafe(At(parents, x), colors)
      ensures var C := FlipAll(colors, FlipColorSet(x));
        && RedFreeBut(shape, C, x) && PairSafe(At(parents, x), C)
        && Calm(Left(Find(shape, x)), C) && Calm(Right(Find(shape, x)), C)
    {
      InRange();
      Children(x);
      var X := Find(shape, x);
      var F := FlipColorSet(x);
      var C := FlipAll(colors, F);
      DistinctFind(shape, x);
      FreeFind(shape, colors, NIL, x);
      FlipLocal(X, colors, x == root);
      assert F == FlipSet(X, x == root);
      FindSubset(shape, x);
      ReplaceFree(shape, x, X, colors, C, NIL, x);
      ReplaceFindSelf(shape, x);
      FlipKeepsPair(x);
    }

    /** flipColor(x) recolours neither the parent nor the uncle of `x`. */
    lemma FlipKeepsPair(x: int)
      requires Wf() && x in Ids(shape) && forall z :: z in FlipColorSet(x) ==> z in Ids(Find(shape, x))
      ensures PairSafe(At(parents, x), FlipAll(colors, FlipColorSet(x))) == PairSafe(At(parents, x), colors)
    {
      InRange();
      assert parents[root] == NIL;
      if x != root {
        ParentSide(shape, lefts, rights, parents, x);
        ParentOutside(shape, NIL, lefts, rights, parents, x);
        var p := parents[x];
        ChildFind(shape, p);
        if p != root {
          ParentSide(shape, lefts, rights, parents, p);
          var g := parents[p];
          ChildFind(shape, g);
          DistinctFind(shape, g);
          Children(g);
          UncleApart(Find(shape, g), Find(shape, p), Find(shape, x));
        }
      }
    }

    /**
     * The colours pullUp(x) is called with on the descent: `x` is the only
     * red child of a red entry, its uncle and its children are not red. Then
     * after pullUp no red entry has a red child.
     */
    lemma PullReadyHere(x: int)
      requires Valid() && x in Ids(shape) && x != root && 0 <= x < |parents|
      requires colors[x] == RED && Red(Find(shape, parents[x]))
      requires RedFreeBut(shape, colors, x) && PairSafe(parents[x], colors)
      requires !Red(Left(Find(shape, x))) && !Red(Right(Find(shape, x)))
      ensures Grand(x) in Ids(shape) && GrandChild(Find(shape, Grand(x)), x)
      ensures PullUpFlips(x) == PullFlips(Find(shape, Grand(x)), x)
      ensures NoRedRed(Replace(shape, Grand(x), PulledUp(Find(shape, Grand(x)), x)), FlipAll(colors, PullUpFlips(x)))
    {
      GrandOf(x);
      InRange();
      var g := Grand(x);
      var s := Find(shape, g);
      GrandSubFind(shape, g, x);
      assert PullUpFlips(x) == PullFlips(s, x);
      assert PullReady(s, x, colors);
      PullUpFree(shape, g, x, colors);
    }

    /**
     * After pullUp(x) on the descent for `k`: the next entry of the lookup
     * is guarded. An outer grandchild keeps its calm children; an inner one
     * turns black above its old parent and grandparent, whose next entries
     * are its old calm children.
     */
    lemma Pulled(t: Tree, C: seq<bool>, g: int, x: int, k: int)
      requires Wf() && Ascending(Ids(t), keys) && OnPath(t, x, k, keys)
      requires g in Ids(t) && GrandChild(Find(t, g), x) && RedId(x, C) && |C| == |keys|
      requires Calm(Left(Find(t, x)), C) && Calm(Right(Find(t, x)), C)
      requires shape == Replace(t, g, PulledUp(Find(t, g), x)) && colors == FlipAll(C, PullFlips(Find(t, g), x))
      ensures Stepped(x, k)
    {
      var s := Find(t, g);
      AscendingDistinct(Ids(t), keys);
      OnPathIn(t, x, k, keys);
      PulledCalm(t, g, x, C);
      if 0 <= x < |keys| && keys[x] != k {
        if OuterLeft(s, x) {
          OuterLeftPath(t, g, x, k, keys);
          CalmStep(x, k);
        } else if OuterRight(s, x) {
          OuterRightPath(t, g, x, k, keys);
          CalmStep(x, k);
        } else {
          PulledInner(t, C, g, x, k);
        }
      }
    }

    /** The inner half of Pulled: `x` is black, and its children's next entries are its old calm children. */
    lemma PulledInner(t: Tree, C: seq<bool>, g: int, x: int, k: int)
      requires Wf() && Ascending(Ids(t), keys) && OnPath(t, x, k, keys)
      requires g in Ids(t) && Inner(Find(t, g), x) && !OuterLeft(Find(t, g), x) && !OuterRight(Find(t, g), x)
      requires RedId(x, C) && |C| == |keys| && 0 <= x < |keys| && keys[x] != k
      requires Calm(Left(Find(t, x)), colors) && Calm(Right(Find(t, x)), colors)
      requires shape == Replace(t, g, PulledUp(Find(t, g), x)) && colors == FlipAll(C, PullFlips(Find(t, g), x))
      ensures Stepped(x, k)
    {
      var s := Find(t, g);
      OnPathIn(t, x, k, keys);
      if InnerLeft(s, x) {
        InnerLeftFind(t, g, x, k, keys);
        InnerLeftKeys(t, g, x, k, keys);
      } else {
        InnerRightFind(t, g, x, k, keys);
        InnerRightKeys(t, g, x, k, keys);
      }
      InnerNext(s, x, keys, k);
      InRange();
      Children(x);
      ChildFind(shape, x);
    }

    /** After a flip at `x` that pulls nothing up, no red entry has a red child. */
    lemma Settled(x: int)
      requires Wf() && x in Ids(shape) && RedFreeBut(shape, colors, x)
      requires x != root ==> !(Red(Find(shape, x)) && Red(Find(shape, At(parents, x))))
      ensures NoRedRed(shape, colors)
    {
      InRange();
      FindIn(shape, x);
      if x != root {
        ParentRef(x);
      } else {
        assert parents[x] == NIL;
      }
      Cleared(shape, NIL, lefts, rights, parents, colors, x);
    }

    /** When both children of `x` are calm, the next entry of any lookup is guarded. */
    lemma CalmStep(x: int, k: int)
      requires Wf() && x in Ids(shape)
      requires Calm(Left(Find(shape, x)), colors) && Calm(Right(Find(shape, x)), colors)
      ensures Stepped(x, k)
    {
      InRange();
      ChildFind(shape, x);
    }

    /** When fixDuringInsert(x) changes nothing, the guard moves on to the next entry. */
    lemma QuietStep(x: int, k: int)
      requires Wf() && x in Ids(shape) && Guarded(x, k)
      requires !(Red(Left(Find(shape, x))) && Red(Right(Find(shape, x))))
      ensures Stepped(x, k)
      ensures x != root ==> NoRedRed(shape, colors) ==> !(Red(Find(shape, x)) && Red(Find(shape, At(parents, x))))
    {
      InRange();
      Children(x);
      DistinctChildren(x);
      ChildFind(shape, x);
      if x != root {
        ParentRef(x);
        if NoRedRed(shape, colors) {
          ParentPair(shape, NIL, lefts, rights, parents, colors, x);
        }
      }
    }

    /** fixAfterInsert(x): a new red entry under a red parent is pulled up. */
    method FixAfterInsert(x: int)
      requires Valid() && x in Ids(shape) && x != root
      modifies this
      ensures old(IsDoubleRed(x)) ==> old(Grand(x) in Ids(shape) && GrandChild(Find(shape, Grand(x)), x))
      ensures shape == if old(IsDoubleRed(x)) then Replace(old(shape), old(Grand(x)), PulledUp(old(Find(shape, Grand(x))), x)) else old(shape)
      ensures colors == FlipAll(old(colors), if old(IsDoubleRed(x)) then old(PullUpFlips(x)) else {})
      ensures Ids(shape) == old(Ids(shape)) && Contents() == old(Contents())
      ensures Valid() && keys == old(keys) && vals == old(vals) && size == old(size) && modCount == old(modCount)
      ensures old(RedFreeBut(shape, colors, x) && Find(shape, x) == Leaf(x) && PairSafe(At(parents, x), colors)) ==>
        NoRedRed(shape, colors)
    {
      ghost var ok := RedFreeBut(shape, colors, x) && Find(shape, x) == Leaf(x) && PairSafe(At(parents, x), colors);
      if IsDoubleRed(x) {
        ParentRef(x);
        if ok {
          PullReadyHere(x);
        }
        PullUp(x);
      } else if ok {
        Settled(x);
      }
    }

    /** Flipping the colours below an entry leaves its parent's colour alone. */
    lemma ParentKeepsColor(c: int)
      requires Wf() && c in Ids(shape) && c != root
      ensures 0 <= parents[c] < |colors| && c != parents[c]
      ensures WillPull(c) ==> colors[parents[c]] == RED
    {
      ParentRef(c);
      InRange();
      ParentOutside(shape, NIL, lefts, rights, parents, c);
      var s := Find(shape, c);
      assert s.left.Node? ==> s.left.id in Ids(s);
      assert s.right.Node? ==> s.right.id in Ids(s);
      assert parents[c] !in FlipColorSet(c);
    }

    /** The quantity findInsertPoint's loop decreases: twice what is left of the lookup, and one more if `x` is about to be pulled up. */
    ghost function InsertMeasure(x: int, k: int): nat
      reads this
    {
      2 * SearchLen(Find(shape, x), k, keys) + (if WillPull(x) then 1 else 0)
    }

    /**
     * findInsertPoint(key): the lookup for `key` that repairs the tree on its
     * way down. It returns the entry holding `key`, or the entry below which
     * `key` belongs, or NIL for an empty tree; the entries, and so the map,
     * are unchanged.
     */
    method FindInsertPoint(k: int) returns (e: int)
      requires Valid()
      modifies this
      ensures Valid() && Ids(shape) == old(Ids(shape)) && Contents() == old(Contents())
      ensures keys == old(keys) && vals == old(vals) && size == old(size) && modCount == old(modCount)
      ensures e == NIL <==> size == 0
      ensures e != NIL ==> e in Ids(shape) && 0 <= e < |keys| && OnPath(shape, e, k, keys)
      ensures e != NIL ==> (k in Contents() <==> keys[e] == k)
      ensures e != NIL && k < keys[e] ==> Left(Find(shape, e)).Nil?
      ensures e != NIL && keys[e] < k ==> Right(Find(shape, e)).Nil?
      ensures old(NoRedRed(shape, colors)) ==> NoRedRed(shape, colors) && (e != NIL && keys[e] != k ==> PairSafe(e, colors))
    {
      ghost var free := NoRedRed(shape, colors);
      e := root;
      if e != NIL {
        RootGuarded(k);
      }
      while e != NIL
        invariant Valid() && Ids(shape) == old(Ids(shape)) && Contents() == old(Contents())
        invariant keys == old(keys) && vals == old(vals) && size == old(size) && modCount == old(modCount)
        invariant e == NIL ==> size == 0
        invariant e != NIL ==> e in Ids(shape) && OnPath(shape, e, k, keys)
        invariant free ==> NoRedRed(shape, colors) && (e != NIL ==> Guarded(e, k))
        decreases if e == NIL then 0 else InsertMeasure(e, k)
      {
        ghost var t0, wp, g := shape, WillPull(e), Grand(e);
        FixDuringInsert(e, k);
        FixPath(t0, shape, colors[e] == RED, keys, g, e, k, wp);
        InRange();
        OnPathIn(shape, e, k, keys);
        MapOfKeys(Ids(shape), keys, vals);
        if keys[e] == k {
          return;
        }
        Descend(shape, k, keys, lefts, rights, parents, e);
        Children(e);
        if free {
          GuardNext(e, k);
        }
        if keys[e] > k {
          if lefts[e] == NIL {
            return;
          }
          ParentKeepsColor(lefts[e]);
          e := lefts[e];
        } else {
          if rights[e] == NIL {
            return;
          }
          ParentKeepsColor(rights[e]);
          e := rights[e];
        }
      }
    }

    /** The root is guarded on every descent: it has no parent and it is black. */
    lemma RootGuarded(k: int)
      requires Valid() && root != NIL
      ensures Guarded(root, k)
    {
      assert parents[root] == NIL;
    }

    /**
     * Once fixDuringInsert(e) has left the descent stepped, the child the
     * lookup moves to is guarded; where there is no such child, `e` and its
     * sibling are not both red.
     */
    lemma GuardNext(e: int, k: int)
      requires Valid() && e in Ids(shape) && 0 <= e < |keys| && keys[e] != k && Stepped(e, k)
      ensures k < keys[e] && lefts[e] != NIL ==> Guarded(lefts[e], k)
      ensures k < keys[e] && lefts[e] == NIL ==> PairSafe(e, colors)
      ensures keys[e] < k && rights[e] != NIL ==> Guarded(rights[e], k)
      ensures keys[e] < k && rights[e] == NIL ==> PairSafe(e, colors)
    {
      Children(e);
    }

    /**
     * The new-entry half of put(key, value): a red leaf holding `k` hangs
     * where the lookup of the missing `k` stopped, below `e`.
     */
    method Attach(e: int, k: int, v: Option<V>, left: bool) returns (n: int)
      requires Valid() && OnPath(shape, e, k, keys) && 0 <= e < |keys| && keys[e] != k && left == (k < keys[e])
      requires if left then Left(Find(shape, e)).Nil? else Right(Find(shape, e)).Nil?
      modifies this
      ensures Valid() && n == old(|keys|) && n in Ids(shape) && n != root
      ensures Contents() == old(Contents())[k := v]
      ensures keys == old(keys) + [k] && vals == old(vals) + [v] && colors == old(colors) + [RED]
      ensures Find(old(shape), e).Node? && shape == Replace(old(shape), e, Hang(Find(old(shape), e), n, left))
      ensures size == old(size) + 1 && modCount == old(modCount)
      ensures Find(shape, n) == Leaf(n) && At(parents, n) == e
      ensures old(NoRedRed(shape, colors)) ==> RedFreeBut(shape, colors, n)
      ensures old(PairSafe(e, colors)) ==> PairSafe(e, colors)
    {
      OnPathIn(shape, e, k, keys);
      Children(e);
      OtherInRange(e);
      InRange();
      ghost var t, K, V, C, L, R, P := shape, keys, vals, colors, lefts, rights, parents;
      ghost var q := At(parents, e);
      ghost var o := Other(q, e);
      n := |keys|;
      var refs := AttachRefs(lefts, rights, parents, e, left);
      shape, keys, vals, colors, lefts, rights, parents, size :=
        Replace(shape, e, Hang(Find(shape, e), n, left)), keys + [k], vals + [v], colors + [RED], refs.0, refs.1, refs.2, size + 1;
      Attached(t, e, k, v, left, K, V, C, L, R, P);
      AttachedColors(t, e, left, C, L, R, P, q, o);
    }

    /**
     * The colours once Attach has run: the new leaf's parent is `e`, only
     * the new leaf may be a red entry with a red parent, and `e` and its
     * sibling are as red as they were.
     */
    lemma AttachedColors(t: Tree, e: int, left: bool, C: seq<bool>, L: seq<int>, R: seq<int>, P: seq<int>, q: int, o: int)
      requires Wf() && Distinct(Ids(t)) && e in Ids(t) && Find(t, e).Node? && forall z :: z in Ids(t) ==> 0 <= z < |C|
      requires shape == Replace(t, e, Hang(Find(t, e), |C|, left)) && colors == C + [RED]
      requires |L| == |C| && |R| == |C| && |P| == |C| && 0 <= e < |C|
      requires (lefts, rights, parents) == AttachRefs(L, R, P, e, left)
      requires q == At(P, e) && q != e && o == (if At(L, q) == e then At(R, q) else At(L, q)) && (o == NIL || 0 <= o < |C|)
      ensures Find(shape, |C|) == Leaf(|C|) && At(parents, |C|) == e
      ensures NoRedRed(t, C) ==> RedFreeBut(shape, colors, |C|)
      ensures !(RedId(e, C) && RedId(o, C)) ==> PairSafe(e, colors)
    {
      InRange();
      HungLeaf(t, e, |C|, left);
      AttachRefsKeep(L, R, P, e, left, q);
      if NoRedRed(t, C) {
        HangFree(t, e, |C|, left, C);
      }
    }

    /** The sibling reference of an entry: NIL or another entry of the arena. */
    lemma OtherInRange(y: int)
      requires Wf() && y in Ids(shape)
      ensures At(parents, y) != y
      ensures Other(At(parents, y), y) == NIL || 0 <= Other(At(parents, y), y) < |keys|
    {
      InRange();
      if y == root {
        assert parents[root] == NIL;
      } else {
        ParentRef(y);
        ParentOutside(shape, NIL, lefts, rights, parents, y);
        Children(parents[y]);
      }
    }

    /** The state Attach leaves: the arena with the new leaf is well formed and holds one more pair. */
    lemma Attached(t: Tree, e: int, k: int, v: Option<V>, left: bool,
                   K: seq<int>, V: seq<Option<V>>, C: seq<bool>, L: seq<int>, R: seq<int>, P: seq<int>)
      requires Linked(t, NIL, L, R, P) && Ascending(Ids(t), K) && root == Root(t) && size == |Ids(t)| + 1
      requires |V| == |K| && |C| == |K| && |L| == |K| && |R| == |K| && |P| == |K|
      requires root != NIL ==> 0 <= root < |C| && C[root] == BLACK
      requires OnPath(t, e, k, K) && 0 <= e < |K| && K[e] != k && left == (k < K[e])
      requires Find(t, e).Node? && if left then Left(Find(t, e)).Nil? else Right(Find(t, e)).Nil?
      requires shape == Replace(t, e, Hang(Find(t, e), |K|, left))
      requires keys == K + [k] && vals == V + [v] && colors == C + [RED]
      requires (lefts, rights, parents) == AttachRefs(L, R, P, e, left)
      ensures Valid() && Contents() == MapOf(Ids(t), K, V)[k := v] && |K| in Ids(shape) && |K| != root
    {
      AttachWf(t, e, k, v, left, K, V, L, R, P);
      assert |K| in Ids(shape);
    }

    /** The empty-tree half of put(key, value): the new entry becomes the black root. */
    method NewRoot(k: int, v: Option<V>)
      requires Valid() && size == 0
      modifies this
      ensures Valid() && Contents() == map[k := v] && old(Contents()) == map[]
      ensures size == 1 && modCount == old(modCount)
      ensures NoRedRed(shape, colors)
    {
      assert Ids(shape) == [];
      assert Contents() == map[];
      var n := |keys|;
      shape, keys, vals, colors, lefts, rights, parents, root, size :=
        Leaf(n), keys + [k], vals + [v], colors + [BLACK], lefts + [NIL], rights + [NIL], parents + [NIL], n, 1;
      Planted(k, v);
    }

    /** The state NewRoot leaves: a single black entry holding `k`. */
    lemma Planted(k: int, v: Option<V>)
      requires |keys| > 0 && |vals| == |keys| && |colors| == |keys|
      requires |lefts| == |keys| && |rights| == |keys| && |parents| == |keys|
      requires root == |keys| - 1 && shape == Leaf(root) && size == 1
      requires keys[root] == k && vals[root] == v && colors[root] == BLACK
      requires lefts[root] == NIL && rights[root] == NIL && parents[root] == NIL
      ensures Valid() && Contents() == map[k := v] && NoRedRed(shape, colors)
    {
      assert Ids(shape) == [root] && [root][..0] == [];
      assert MapOf([], keys, vals) == map[];
    }

    /**
     * put(key, value): the lookup repairs the tree on its way down; then
     * the entry holding `key` gets the new value (the old one is returned),
     * or a new entry is added (null is returned): as the black root of an
     * empty tree, or as a red leaf that fixAfterInsert lifts when its parent
     * is red too. Only an added entry counts as a modification.
     */
    method Put(k: int, v: Option<V>) returns (r: Option<V>)
      requires Valid()
      modifies this
      ensures Valid() && Contents() == old(Contents())[k := v]
      ensures r == if k in old(Contents()) then old(Contents())[k] else None
      ensures size == old(size) + (if k in old(Contents()) then 0 else 1)
      ensures modCount == old(modCount) + (if k in old(Contents()) then 0 else 1)
      ensures k in old(Contents()) ==> Ids(shape) == old(Ids(shape)) && keys == old(keys)
      ensures old(NoRedRed(shape, colors)) ==> NoRedRed(shape, colors)
    {
      var e := FindInsertPoint(k);
      if e == NIL {
        NewRoot(k, v);
        modCount := modCount + 1;
        return None;
      }
      if keys[e] == k {
        r := Overwrite(e, v);
        return r;
      }
      var n := Attach(e, k, v, keys[e] > k);
      modCount := modCount + 1;
      FixAfterInsert(n);
      return None;
    }

    /**
     * The existing-key half of put(key, value): the entry `e` gets the new
     * value and its old one is returned; only the value of its key changes.
     */
    method Overwrite(e: int, v: Option<V>) returns (r: Option<V>)
      requires Valid() && e in Ids(shape)
      modifies this
      ensures 0 <= e < |keys| && keys[e] in old(Contents()) && r == old(Contents())[keys[e]]
      ensures Valid() && Contents() == old(Contents())[keys[e] := v]
      ensures vals == old(vals)[e := v]
      ensures shape == old(shape) && keys == old(keys) && colors == old(colors)
      ensures size == old(size) && modCount == old(modCount)
    {
      InRange();
      MapOfLookup(Ids(shape), keys, vals, e);
      r := vals[e];
      MapOfSet(Ids(shape), keys, vals, e, v);
      vals := vals[e := v];
    }

    /** minimal(x): the leftmost entry below `x`, the first of its subtree in in-order; NIL for NIL. */
    method Minimal(x: int) returns (r: int)
      requires Wf() && (x == NIL || x in Ids(shape))
      ensures x == NIL ==> r == NIL
      ensures x != NIL ==> Ids(Find(shape, x)) != [] && r == Ids(Find(shape, x))[0]
    {
      if x == NIL {
        return NIL;
      }
      var cur := x;
      LeftStep(cur);
      while lefts[cur] != NIL
        invariant cur in Ids(shape) && 0 <= cur < |lefts|
        invariant Ids(Find(shape, cur)) != [] && Ids(Find(shape, cur))[0] == Ids(Find(shape, x))[0]
        decreases |Ids(Find(shape, cur))|
      {
        LeftStep(cur);
        cur := lefts[cur];
        LeftStep(cur);
      }
      LeftStep(cur);
      return cur;
    }

    /**
     * The subtree of `x` starts with the subtree of its left child, or with
     * `x` itself when there is none.
     */
    lemma LeftStep(x: int)
      requires Wf() && x in Ids(shape)
      ensures 0 <= x < |lefts| && Ids(Find(shape, x)) != []
      ensures lefts[x] == NIL ==> Ids(Find(shape, x))[0] == x
      ensures lefts[x] != NIL ==> lefts[x] in Ids(shape) && Ids(Find(shape, lefts[x])) != []
      ensures lefts[x] != NIL ==> Ids(Find(shape, lefts[x]))[0] == Ids(Find(shape, x))[0]
      ensures lefts[x] != NIL ==> |Ids(Find(shape, lefts[x]))| < |Ids(Find(shape, x))|
    {
      InRange();
      FindIn(shape, x);
      Children(x);
      ChildFind(shape, x);
      var s := Find(shape, x);
      assert Ids(s) == Ids(s.left) + [x] + Ids(s.right);
      if lefts[x] != NIL {
        FindIn(shape, lefts[x]);
      }
    }

    /**
     * successor(x): the entry that follows `x` in in-order, and so holds the
     * next larger key: the leftmost entry of its right subtree, or else the
     * nearest ancestor whose left subtree holds `x`. NIL after the last
     * entry, and for NIL.
     */
    method Successor(x: int) returns (r: int)
      requires Wf() && (x == NIL || x in Ids(shape))
      ensures x == NIL ==> r == NIL
      ensures x != NIL ==> (r == NIL <==> Last(Ids(shape), x))
      ensures r != NIL ==> r in Ids(shape) && Follows(Ids(shape), x, r)
    {
      if x == NIL {
        return NIL;
      }
      InRange();
      Children(x);
      if rights[x] != NIL {
        RightFollows(x);
        r := Minimal(rights[x]);
        return;
      }
      LastOfOwn(x);
      var e := x;
      r := parents[x];
      ParentUp(e);
      while r != NIL && rights[r] == e
        invariant e in Ids(shape) && 0 <= e < |parents| && r == parents[e]
        invariant r != NIL ==> 0 <= r < |rights|
        invariant Last(Ids(Find(shape, e)), x)
        decreases |Ids(shape)| - |Ids(Find(shape, e))|
      {
        ParentUp(e);
        e := r;
        r := parents[r];
        ParentUp(e);
      }
      LeftAncestorFollows(x, e);
    }

    /** An entry with a right child is followed by the first entry of that child's subtree. */
    lemma RightFollows(x: int)
      requires Wf() && x in Ids(shape) && 0 <= x < |rights| && rights[x] != NIL
      ensures rights[x] in Ids(shape) && Ids(Find(shape, rights[x])) != []
      ensures Follows(Ids(shape), x, Ids(Find(shape, rights[x]))[0])
      ensures !Last(Ids(shape), x)
    {
      InRange();
      Children(x);
      FindIn(shape, x);
      ChildFind(shape, x);
      var s := Find(shape, x);
      FindIn(shape, rights[x]);
      var y := Ids(Find(shape, rights[x]))[0];
      FollowsRight(s.left, x, s.right);
      FollowsIn(Before(shape, x), Ids(s), After(shape, x), x, y);
      FollowsNotLast(Ids(shape), x, y);
    }

    /** An entry without a right child is the last of its own subtree. */
    lemma LastOfOwn(x: int)
      requires Wf() && x in Ids(shape) && 0 <= x < |rights| && rights[x] == NIL
      ensures Last(Ids(Find(shape, x)), x)
    {
      InRange();
      Children(x);
      FindIn(shape, x);
      var s := Find(shape, x);
      assert Ids(s) == Ids(s.left) + [x];
    }

    /**
     * Where the climb from `x` stops: `x` is the last entry of the subtree of
     * `e`, and `e` is the root or a left child. Then the parent of `e` is the
     * entry after `x`, and there is none exactly when `e` is the root.
     */
    lemma LeftAncestorFollows(x: int, e: int)
      requires Wf() && x in Ids(shape) && e in Ids(shape) && Last(Ids(Find(shape, e)), x)
      requires 0 <= e < |parents| && (parents[e] != NIL ==> 0 <= parents[e] < |rights| && rights[parents[e]] != e)
      ensures parents[e] == NIL <==> Last(Ids(shape), x)
      ensures parents[e] != NIL ==> parents[e] in Ids(shape) && Follows(Ids(shape), x, parents[e])
    {
      ParentUp(e);
      var r := parents[e];
      if r != NIL {
        var p := Find(shape, r);
        FollowsUp(p.left, r, p.right, x);
        FindIn(shape, r);
        FollowsIn(Before(shape, r), Ids(p), After(shape, r), x, r);
        InRange();
        FollowsNotLast(Ids(shape), x, r);
      }
    }

    /**
     * One step up from `e`: its parent reference is NIL exactly at the root,
     * and otherwise names the entry whose subtree holds the subtree of `e`
     * as its left or right part.
     */
    lemma ParentUp(e: int)
      requires Wf() && e in Ids(shape)
      ensures 0 <= e < |parents|
      ensures parents[e] == NIL <==> e == root
      ensures e == root ==> Find(shape, e) == shape
      ensures parents[e] != NIL ==> (
        && parents[e] in Ids(shape) && 0 <= parents[e] < |rights|
        && var p := Find(shape, parents[e]);
        && p.Node? && p.id == parents[e]
        && |Ids(Find(shape, e))| < |Ids(p)| <= |Ids(shape)|
        && Ids(p) == Ids(p.left) + [p.id] + Ids(p.right)
        && (rights[parents[e]] == e ==> p.right == Find(shape, e))
        && (rights[parents[e]] != e ==> p.left == Find(shape, e)))
    {
      InRange();
      ParentOf(shape, NIL, lefts, rights, parents, e);
      if e != root {
        var q := parents[e];
        ParentSide(shape, lefts, rights, parents, e);
        ChildFind(shape, q);
        FindIn(shape, q);
        assert q != NIL;
      } else {
        assert shape.Node? && shape.id == e;
      }
    }

    /** entryIterator(): a fresh iterator at the first entry. */
    method EntryIterator() returns (it: TreeIterator<V>)
      requires Valid()
      ensures fresh(it) && it.owner == this && it.Valid()
      ensures it.pos == 0 && it.order == Ids(shape) && it.expectedModCount == modCount
    {
      it := new TreeIterator(this);
    }

    /**
     * The entries in in-order carry their keys in strictly ascending order,
     * each key of the map exactly once: the order an iterator returns them in.
     */
    lemma InOrderKeys()
      requires Wf()
      ensures var ks := KeysOf(Ids(shape), keys);
        && |ks| == size
        && (forall a, b :: 0 <= a < b < |ks| ==> ks[a] < ks[b])
        && (forall k :: k in ks <==> k in Contents())
    {
      InRange();
      AscendingKeysOf(Ids(shape), keys);
    }

    /** The entry at position `i` of the in-order holds the `i`-th key and its value. */
    lemma EntryAt(i: int)
      requires Wf() && 0 <= i < |Ids(shape)|
      ensures Distinct(Ids(shape))
      ensures var e := Ids(shape)[i];
        && 0 <= e < |keys| && keys[e] == KeysOf(Ids(shape), keys)[i]
        && keys[e] in Contents() && Contents()[keys[e]] == vals[e]
    {
      InRange();
      MapOfLookup(Ids(shape), keys, vals, Ids(shape)[i]);
    }

    /** remove(key): a stub that changes nothing and returns null. */
    method Remove(k: int) returns (r: Option<V>)
      requires Valid()
      ensures r == None
    {
      return None;
    }
  }

  /**
   * EntryIterator: hands out the entries in in-order, one successor step per
   * next(), and refuses to go on once its map has been structurally changed
   * (an entry added) since the iterator was made.
   */
  class TreeIterator<V> {
    const owner: TreeMap<V>
    var nextEntry: int
    var expectedModCount: int
    /** The map's entries in in-order when the iterator was made. */
    ghost var order: seq<int>
    /** How many of them next() has handed out. */
    ghost var pos: nat

    /**
     * While the map has not been structurally changed, its entries are still
     * `order`, and `nextEntry` is the one at `pos`, or NIL past the last.
     */
    ghost predicate Valid()
      reads this, owner
    {
      expectedModCount == owner.modCount ==>
        && owner.Valid() && order == Ids(owner.shape) && pos <= |order|
        && nextEntry == (if pos < |order| then order[pos] else NIL)
    }

    /** new EntryIterator(): starts at the minimal entry below the root. */
    constructor (m: TreeMap<V>)
      requires m.Valid()
      ensures owner == m && Valid()
      ensures pos == 0 && order == Ids(m.shape) && expectedModCount == m.modCount
    {
      m.InRange();
      assert m.root == NIL <==> Ids(m.shape) == [];
      assert m.root != NIL ==> Find(m.shape, m.root) == m.shape;
      owner := m;
      expectedModCount := m.modCount;
      var first := m.Minimal(m.root);
      nextEntry := first;
      order := Ids(m.shape);
      pos := 0;
    }

    /** hasNext(): whether an entry is left to hand out. */
    method HasNext() returns (b: bool)
      ensures b <==> nextEntry != NIL
      ensures Valid() && expectedModCount == owner.modCount ==> (b <==> pos < |order|)
    {
      if Valid() && expectedModCount == owner.modCount {
        owner.InRange();
      }
      return nextEntry != NIL;
    }

    /**
     * next(): NoSuchElement past the last entry; ConcurrentModification once
     * the map has been structurally changed; otherwise the key and value of
     * the entry at `pos` in in-order, and one step on.
     */
    method Next() returns (r: Result<(int, Option<V>)>)
      requires Valid()
      modifies this
      ensures old(nextEntry) == NIL ==> r == Err(NoSuchElement)
      ensures old(nextEntry) != NIL && expectedModCount != owner.modCount ==> r == Err(ConcurrentModification)
      ensures r.Err? ==> nextEntry == old(nextEntry) && pos == old(pos)
      ensures Valid() && order == old(order) && expectedModCount == old(expectedModCount)
      ensures r.Ok? ==> (
        && expectedModCount == owner.modCount && old(pos) < |order| && pos == old(pos) + 1
        && var ks := KeysOf(order, owner.keys);
        && r.value.0 == ks[old(pos)] && r.value.0 in owner.Contents()
        && r.value.1 == owner.Contents()[r.value.0])
    {
      if nextEntry == NIL {
        return Err(NoSuchElement);
      }
      if expectedModCount != owner.modCount {
        return Err(ConcurrentModification);
      }
      owner.EntryAt(pos);
      var e := nextEntry;
      nextEntry := owner.Successor(e);
      FollowsAt(order, pos, e, nextEntry);
      pos := pos + 1;
      return Ok((owner.keys[e], owner.vals[e]));
    }
  }
}
