/**
 * Keys along MyTreeMap's entry tree: the search-tree order, the map the
 * entries denote, and the path a key lookup or an insertion walks.
 */
module TreeSearch {
  import opened TreeShapes

  /** The keys of `ids` (arena slots) strictly increase: the search-tree order. */
  ghost predicate Ascending(ids: seq<int>, K: seq<int>) {
    && (forall j :: 0 <= j < |ids| ==> 0 <= ids[j] < |K|)
    && (forall a, b {:trigger K[ids[a]], K[ids[b]]} :: 0 <= a < b < |ids| ==> K[ids[a]] < K[ids[b]])
  }

  /** The keys held by the slots `ids`. */
  ghost function KeySet(ids: seq<int>, K: seq<int>): set<int> {
    set j | j in ids && 0 <= j < |K| :: K[j]
  }

  /** The map held by the slots `ids`: each slot's key to its value. */
  ghost function MapOf<T>(ids: seq<int>, K: seq<int>, V: seq<T>): map<int, T>
    decreases |ids|
  {
    if ids == [] then map[]
    else
      var j := ids[|ids| - 1];
      var m := MapOf(ids[..|ids| - 1], K, V);
      if 0 <= j < |K| && j < |V| then m[K[j] := V[j]] else m
  }

  /**
   * The lookup of `k` from the top of `t` reaches `x`: every entry above
   * `x` has a different key and sends `k` towards `x`.
   */
  ghost predicate OnPath(t: Tree, x: int, k: int, K: seq<int>) {
    match t
    case Nil => false
    case Node(l, i, r) =>
      || i == x
      || (0 <= i < |K| && k < K[i] && OnPath(l, x, k, K))
      || (0 <= i < |K| && K[i] < k && OnPath(r, x, k, K))
  }

  /** The number of entries the lookup of `k` visits from the top of `t`. */
  ghost function SearchLen(t: Tree, k: int, K: seq<int>): nat {
    match t
    case Nil => 0
    case Node(l, i, r) =>
      if 0 <= i < |K| && k < K[i] then 1 + SearchLen(l, k, K)
      else if 0 <= i < |K| && K[i] < k then 1 + SearchLen(r, k, K)
      else 1
  }

  // ----- order -----

  lemma AscendingNode(l: Tree, i: int, r: Tree, K: seq<int>)
    requires Ascending(Ids(Node(l, i, r)), K)
    ensures Ascending(Ids(l), K) && Ascending(Ids(r), K) && 0 <= i < |K|
    ensures forall j :: j in Ids(l) ==> 0 <= j < |K| && K[j] < K[i]
    ensures forall j :: j in Ids(r) ==> 0 <= j < |K| && K[i] < K[j]
  {
    var s := Ids(Node(l, i, r));
    var n := |Ids(l)|;
    assert forall a :: 0 <= a < n ==> s[a] == Ids(l)[a];
    assert s[n] == i;
    assert forall b :: 0 <= b < |Ids(r)| ==> s[n + 1 + b] == Ids(r)[b];
  }

  /** Strictly increasing keys make the slots distinct. */
  lemma AscendingDistinct(ids: seq<int>, K: seq<int>)
    requires Ascending(ids, K)
    ensures Distinct(ids)
  {
    forall a, b | 0 <= a < b < |ids|
      ensures ids[a] != ids[b]
    {
      assert K[ids[a]] < K[ids[b]];
    }
  }

  lemma {:induction false} OnPathIn(t: Tree, x: int, k: int, K: seq<int>)
    requires OnPath(t, x, k, K)
    ensures x in Ids(t)
  {
    match t
    case Node(l, i, r) =>
      if i == x {
      } else if 0 <= i < |K| && k < K[i] && OnPath(l, x, k, K) {
        OnPathIn(l, x, k, K);
      } else {
        OnPathIn(r, x, k, K);
      }
  }

  /**
   * The lookup of `k` reaches `x` only if `k` fits between the entries
   * before and after the subtree of `x`.
   */
  lemma {:induction false} OnPathGap(t: Tree, x: int, k: int, K: seq<int>)
    requires OnPath(t, x, k, K) && Ascending(Ids(t), K)
    ensures x in Ids(t)
    ensures forall j :: j in Before(t, x) ==> 0 <= j < |K| && K[j] < k
    ensures forall j :: j in After(t, x) ==> 0 <= j < |K| && k < K[j]
  {
    OnPathIn(t, x, k, K);
    match t
    case Node(l, i, r) =>
      AscendingNode(l, i, r, K);
      AscendingDistinct(Ids(t), K);
      DistinctNode(l, i, r);
      if i == x {
      } else if x in Ids(l) {
        if !(k < K[i] && OnPath(l, x, k, K)) {
          OnPathIn(r, x, k, K);
        }
        OnPathGap(l, x, k, K);
      } else {
        if !(K[i] < k && OnPath(r, x, k, K)) {
          OnPathIn(l, x, k, K);
        }
        OnPathGap(r, x, k, K);
      }
  }

  /** One step of the lookup: from `x`, `k` goes on to the child on its side. */
  lemma {:induction false} OnPathChild(t: Tree, x: int, k: int, K: seq<int>)
    requires OnPath(t, x, k, K) && Ascending(Ids(t), K)
    ensures x in Ids(t) && 0 <= x < |K| && Find(t, x).Node? && Find(t, x).id == x
    ensures k < K[x] && Find(t, x).left.Node? ==> OnPath(t, Find(t, x).left.id, k, K)
    ensures K[x] < k && Find(t, x).right.Node? ==> OnPath(t, Find(t, x).right.id, k, K)
  {
    OnPathIn(t, x, k, K);
    FindIn(t, x);
    match t
    case Node(l, i, r) =>
      AscendingNode(l, i, r, K);
      AscendingDistinct(Ids(t), K);
      DistinctNode(l, i, r);
      if i == x {
      } else if x in Ids(l) {
        if !(k < K[i] && OnPath(l, x, k, K)) {
          OnPathIn(r, x, k, K);
        }
        OnPathChild(l, x, k, K);
      } else {
        if !(K[i] < k && OnPath(r, x, k, K)) {
          OnPathIn(l, x, k, K);
        }
        OnPathChild(r, x, k, K);
      }
  }

  /** A lookup that reaches `x` passes through every entry above `x`. */
  lemma {:induction false} OnPathUp(t: Tree, x: int, y: int, k: int, K: seq<int>)
    requires OnPath(t, x, k, K) && Distinct(Ids(t)) && y in Ids(t) && x in Ids(Find(t, y))
    ensures OnPath(t, y, k, K)
  {
    match t
    case Node(l, i, r) =>
      DistinctNode(l, i, r);
      if i == y {
      } else if y in Ids(l) {
        FindIn(l, y);
        if !(0 <= i < |K| && k < K[i] && OnPath(l, x, k, K)) {
          OnPathIn(r, x, k, K);
        }
        OnPathUp(l, x, y, k, K);
      } else {
        FindIn(r, y);
        if !(0 <= i < |K| && K[i] < k && OnPath(r, x, k, K)) {
          OnPathIn(l, x, k, K);
        }
        OnPathUp(r, x, y, k, K);
      }
  }

  /**
   * A lookup that reaches `x` below an entry `y` passes `y` on the side
   * holding `x`: `k` is below `y`'s key when `x` is to the left, above it
   * when `x` is to the right.
   */
  lemma {:induction false} OnPathSide(t: Tree, x: int, y: int, k: int, K: seq<int>)
    requires OnPath(t, x, k, K) && Distinct(Ids(t)) && y in Ids(t) && x in Ids(Find(t, y)) && x != y
    ensures Find(t, y).Node?
    ensures x in Ids(Find(t, y).left) ==> 0 <= y < |K| && k < K[y]
    ensures x in Ids(Find(t, y).right) ==> 0 <= y < |K| && K[y] < k
  {
    match t
    case Node(l, i, r) =>
      DistinctNode(l, i, r);
      if i == y {
        if 0 <= i < |K| && k < K[i] && OnPath(l, x, k, K) {
          OnPathIn(l, x, k, K);
        } else if 0 <= i < |K| && K[i] < k && OnPath(r, x, k, K) {
          OnPathIn(r, x, k, K);
        }
      } else if y in Ids(l) {
        FindIn(l, y);
        if !(0 <= i < |K| && k < K[i] && OnPath(l, x, k, K)) {
          OnPathIn(r, x, k, K);
        }
        OnPathSide(l, x, y, k, K);
      } else {
        FindIn(r, y);
        if !(0 <= i < |K| && K[i] < k && OnPath(r, x, k, K)) {
          OnPathIn(l, x, k, K);
        }
        OnPathSide(r, x, y, k, K);
      }
  }

  /** Whatever replaces the subtree of an entry on the lookup path is reached by the lookup. */
  lemma {:induction false} OnPathReplace(t: Tree, y: int, s: Tree, k: int, K: seq<int>)
    requires OnPath(t, y, k, K) && Distinct(Ids(t)) && s.Node?
    ensures OnPath(Replace(t, y, s), s.id, k, K)
  {
    OnPathIn(t, y, k, K);
    match t
    case Node(l, i, r) =>
      DistinctNode(l, i, r);
      if i == y {
      } else if y in Ids(l) {
        if !(0 <= i < |K| && k < K[i] && OnPath(l, y, k, K)) {
          OnPathIn(r, y, k, K);
        }
        OnPathReplace(l, y, s, k, K);
      } else {
        if !(0 <= i < |K| && K[i] < k && OnPath(r, y, k, K)) {
          OnPathIn(l, y, k, K);
        }
        OnPathReplace(r, y, s, k, K);
      }
  }

  // ----- the map of a tree -----

  lemma {:induction false} MapOfConcat<T>(a: seq<int>, b: seq<int>, K: seq<int>, V: seq<T>)
    ensures MapOf(a + b, K, V) == MapOf(a, K, V) + MapOf(b, K, V)
    decreases |b|
  {
    if b == [] {
      assert a + b == a;
    } else {
      var b' := b[..|b| - 1];
      assert (a + b)[..|a + b| - 1] == a + b';
      assert (a + b)[|a + b| - 1] == b[|b| - 1];
      MapOfConcat(a, b', K, V);
    }
  }

  lemma {:induction false} MapOfKeys<T>(ids: seq<int>, K: seq<int>, V: seq<T>)
    requires forall j :: j in ids ==> 0 <= j < |K| && j < |V|
    ensures MapOf(ids, K, V).Keys == KeySet(ids, K)
    decreases |ids|
  {
    if ids != [] {
      var ids' := ids[..|ids| - 1];
      assert forall j :: j in ids' ==> j in ids;
      MapOfKeys(ids', K, V);
      assert ids == ids' + [ids[|ids| - 1]];
    }
  }

  /** In the search-tree order, each slot's key maps to that slot's value. */
  lemma {:induction false} MapOfLookup<T>(ids: seq<int>, K: seq<int>, V: seq<T>, j: int)
    requires Ascending(ids, K) && j in ids && 0 <= j < |V|
    ensures K[j] in MapOf(ids, K, V) && MapOf(ids, K, V)[K[j]] == V[j]
    decreases |ids|
  {
    var n := |ids| - 1;
    var ids' := ids[..n];
    if ids[n] != j {
      assert j in ids';
      var a :| 0 <= a < n && ids'[a] == j;
      assert K[ids[a]] < K[ids[n]];
      MapOfLookup(ids', K, V, j);
    }
  }

  /** Overwriting a slot's value overwrites its key's entry of the map. */
  lemma {:induction false} MapOfSet<T>(ids: seq<int>, K: seq<int>, V: seq<T>, c: int, v: T)
    requires Ascending(ids, K) && c in ids && |V| == |K|
    ensures MapOf(ids, K, V[c := v]) == MapOf(ids, K, V)[K[c] := v]
    decreases |ids|
  {
    var n := |ids| - 1;
    var ids' := ids[..n];
    var z := ids[n];
    if z == c {
      forall j | j in ids'
        ensures j != c && 0 <= j < |K|
      {
        var a :| 0 <= a < n && ids'[a] == j;
        assert K[ids[a]] < K[ids[n]];
      }
      MapOfFrame(ids', K, V, K, V[c := v]);
    } else {
      assert c in ids';
      var a :| 0 <= a < n && ids'[a] == c;
      assert K[ids[a]] < K[ids[n]];
      MapOfSet(ids', K, V, c, v);
    }
  }

  /** The map depends only on the keys and values of the slots it covers. */
  lemma {:induction false} MapOfFrame<T>(ids: seq<int>, K: seq<int>, V: seq<T>, K': seq<int>, V': seq<T>)
    requires forall j :: j in ids ==> 0 <= j < |K| && j < |V| && j < |K'| && j < |V'| && K'[j] == K[j] && V'[j] == V[j]
    ensures MapOf(ids, K', V') == MapOf(ids, K, V)
    decreases |ids|
  {
    if ids != [] {
      var ids' := ids[..|ids| - 1];
      assert forall j :: j in ids' ==> j in ids;
      MapOfFrame(ids', K, V, K', V');
    }
  }

  lemma AscendingSegment(b: seq<int>, m: seq<int>, a: seq<int>, K: seq<int>)
    requires Ascending(b + m + a, K)
    ensures Ascending(m, K)
    ensures forall j :: j in b ==> 0 <= j < |K| && forall y :: y in m ==> K[j] < K[y]
    ensures forall j :: j in a ==> 0 <= j < |K| && forall y :: y in m ==> K[y] < K[j]
  {
    var s := b + m + a;
    assert forall i :: 0 <= i < |b| ==> s[i] == b[i];
    assert forall i :: 0 <= i < |m| ==> s[|b| + i] == m[i];
    assert forall i :: 0 <= i < |a| ==> s[|b| + |m| + i] == a[i];
  }

  /** A lookup that reaches `x` finds `k` in the tree exactly when `k` is in the subtree of `x`. */
  lemma OnPathKeys(t: Tree, x: int, k: int, K: seq<int>)
    requires OnPath(t, x, k, K) && Ascending(Ids(t), K)
    ensures x in Ids(t)
    ensures k in KeySet(Ids(t), K) <==> k in KeySet(Ids(Find(t, x)), K)
  {
    OnPathGap(t, x, k, K);
    FindIn(t, x);
  }

  /** Below an entry whose key differs, `k` can only be on its own side. */
  lemma SideKeys(l: Tree, x: int, r: Tree, k: int, K: seq<int>)
    requires Ascending(Ids(Node(l, x, r)), K) && 0 <= x < |K| && K[x] != k
    ensures k < K[x] ==> (k in KeySet(Ids(Node(l, x, r)), K) <==> k in KeySet(Ids(l), K))
    ensures K[x] < k ==> (k in KeySet(Ids(Node(l, x, r)), K) <==> k in KeySet(Ids(r), K))
  {
    AscendingNode(l, x, r, K);
  }

  /** The lookup of `k` ends without a match where the child on `k`'s side is missing. */
  lemma DescendMissing(t: Tree, k: int, K: seq<int>, x: int)
    requires Ascending(Ids(t), K) && OnPath(t, x, k, K)
    requires 0 <= x < |K| && K[x] != k
    requires x in Ids(t) && Find(t, x).Node? && Find(t, x).id == x
    requires k < K[x] ==> Find(t, x).left.Nil?
    requires K[x] < k ==> Find(t, x).right.Nil?
    ensures k !in KeySet(Ids(t), K)
  {
    var s := Find(t, x);
    assert s == Node(s.left, x, s.right);
    OnPathKeys(t, x, k, K);
    FindIn(t, x);
    AscendingSegment(Before(t, x), Ids(s), After(t, x), K);
    SideKeys(s.left, x, s.right, k, K);
    assert KeySet(Ids(Nil), K) == {};
  }

  /** Where the child on `k`'s side exists, the lookup goes on there, one entry closer to its end. */
  lemma DescendOn(t: Tree, k: int, K: seq<int>, x: int)
    requires Ascending(Ids(t), K) && OnPath(t, x, k, K)
    requires 0 <= x < |K| && K[x] != k
    ensures x in Ids(t) && Find(t, x).Node? && Find(t, x).id == x
    ensures var c := if k < K[x] then Find(t, x).left else Find(t, x).right;
      c.Node? ==> OnPath(t, c.id, k, K) && SearchLen(Find(t, c.id), k, K) < SearchLen(Find(t, x), k, K)
  {
    OnPathChild(t, x, k, K);
    AscendingDistinct(Ids(t), K);
    ChildFind(t, x);
    var s := Find(t, x);
    assert s == Node(s.left, x, s.right);
  }

  /**
   * One step of findEntry/findInsertPoint below an entry whose key differs:
   * a missing child on `k`'s side means `k` is absent; otherwise the lookup
   * goes on from that child, one entry closer to its end.
   */
  lemma Descend(t: Tree, k: int, K: seq<int>, L: seq<int>, R: seq<int>, P: seq<int>, x: int)
    requires Linked(t, NIL, L, R, P) && Ascending(Ids(t), K) && OnPath(t, x, k, K)
    requires 0 <= x < |K| && K[x] != k
    ensures x in Ids(t) && x < |L| && x < |R|
    ensures var n := if k < K[x] then L[x] else R[x];
      && (n == NIL ==> k !in KeySet(Ids(t), K))
      && (n != NIL ==> OnPath(t, n, k, K) && SearchLen(Find(t, n), k, K) < SearchLen(Find(t, x), k, K))
  {
    DescendOn(t, k, K, x);
    LinkedFind(t, NIL, L, R, P, x);
    var s := Find(t, x);
    assert s == Node(s.left, x, s.right);
    if (k < K[x] && s.left.Nil?) || (K[x] < k && s.right.Nil?) {
      DescendMissing(t, k, K, x);
    }
  }

  // ----- a new entry -----

  /** A new slot `|K|` whose key fits between `B` and `A` keeps the order. */
  lemma AscendingInsert(B: seq<int>, A: seq<int>, K: seq<int>, k: int)
    requires Ascending(B + A, K)
    requires forall j :: j in B ==> 0 <= j < |K| && K[j] < k
    requires forall j :: j in A ==> 0 <= j < |K| && k < K[j]
    ensures Ascending(B + [|K|] + A, K + [k])
  {
    var s, s' := B + A, B + [|K|] + A;
    var K' := K + [k];
    var n := |B|;
    assert forall i :: 0 <= i < n ==> s'[i] == s[i] && s[i] in B;
    assert forall i :: n < i < |s'| ==> s'[i] == s[i - 1] && s[i - 1] in A;
    forall a, b | 0 <= a < b < |s'| ensures K'[s'[a]] < K'[s'[b]] {
      if b < n {
      } else if a < n && b == n {
      } else if a < n {
        assert K[s[a]] < k;
      } else if a == n {
      } else {
        assert K[s[a - 1]] < K[s[b - 1]];
      }
    }
  }

  /** The map of the slots with a new slot `|K|` for a key not held by the later slots `A`. */
  lemma MapOfInsert<T>(B: seq<int>, A: seq<int>, K: seq<int>, V: seq<T>, k: int, v: T)
    requires forall j :: j in B + A ==> 0 <= j < |K|
    requires |V| == |K| && k !in KeySet(A, K)
    ensures MapOf(B + [|K|] + A, K + [k], V + [v]) == MapOf(B + A, K, V)[k := v]
  {
    var K', V' := K + [k], V + [v];
    assert forall j :: j in B ==> j in B + A;
    assert forall j :: j in A ==> j in B + A;
    MapOfConcat(B + [|K|], A, K', V');
    MapOfConcat(B, [|K|], K', V');
    MapOfConcat(B, A, K, V);
    MapOfFrame(B, K, V, K', V');
    MapOfFrame(A, K, V, K', V');
    assert [|K|][..0] == [];
    assert MapOf([|K|], K', V') == map[k := v];
    MapOfKeys(A, K, V);
  }

  /** Ascending slots hold pairwise different keys, so there are as many keys as slots. */
  lemma {:induction false} KeySetSize(ids: seq<int>, K: seq<int>)
    requires Ascending(ids, K)
    ensures |KeySet(ids, K)| == |ids|
    decreases |ids|
  {
    if ids != [] {
      var n := |ids| - 1;
      var front := ids[..n];
      assert ids == front + [ids[n]];
      KeySetSize(front, K);
      assert KeySet(ids, K) == KeySet(front, K) + {K[ids[n]]};
      assert K[ids[n]] !in KeySet(front, K);
    }
  }


  lemma LeafRegroup(b: seq<int>, m: seq<int>, a: seq<int>, n: int)
    ensures b + (m + a) == b + m + a
    ensures b + ([n] + m) + a == b + [n] + (m + a)
    ensures b + (m + [n]) + a == (b + m) + [n] + a
  {
  }

  /**
   * Where the lookup of a missing `k` stops at `x` with no child on `k`'s
   * side, the slots split into those with smaller keys (`B`) and those with
   * larger keys (`A`), and the new leaf's place in in-order is between them.
   */
  lemma {:induction false} LeafGap(t: Tree, x: int, k: int, K: seq<int>, left: bool) returns (B: seq<int>, A: seq<int>)
    requires Ascending(Ids(t), K) && OnPath(t, x, k, K)
    requires 0 <= x < |K| && K[x] != k && left == (k < K[x])
    requires if left then Left(Find(t, x)).Nil? else Right(Find(t, x)).Nil?
    ensures x in Ids(t) && B + A == Ids(t)
    ensures Before(t, x) + (if left then [|K|] + Ids(Find(t, x)) else Ids(Find(t, x)) + [|K|]) + After(t, x) == B + [|K|] + A
    ensures forall j :: j in B ==> 0 <= j < |K| && K[j] < k
    ensures forall j :: j in A ==> 0 <= j < |K| && k < K[j]
  {
    OnPathGap(t, x, k, K);
    FindIn(t, x);
    KeysAround(t, x, K);
    B, A := GapSplit(Before(t, x), Find(t, x), After(t, x), K, k, left, |K|);
  }

  /**
   * LeafGap on sequences: the slots `b`, then the subtree `s` missing the
   * child on `k`'s side, then `a`, split around `k`.
   */
  lemma GapSplit(b: seq<int>, s: Tree, a: seq<int>, K: seq<int>, k: int, left: bool, n: int) returns (B: seq<int>, A: seq<int>)
    requires s.Node? && 0 <= s.id < |K| && K[s.id] != k && left == (k < K[s.id])
    requires if left then s.left.Nil? else s.right.Nil?
    requires forall j :: j in b ==> 0 <= j < |K| && K[j] < k
    requires forall j :: j in a ==> 0 <= j < |K| && k < K[j]
    requires forall j :: j in Ids(s.left) ==> 0 <= j < |K| && K[j] < K[s.id]
    requires forall j :: j in Ids(s.right) ==> 0 <= j < |K| && K[s.id] < K[j]
    ensures B + A == b + Ids(s) + a
    ensures b + (if left then [n] + Ids(s) else Ids(s) + [n]) + a == B + [n] + A
    ensures forall j :: j in B ==> 0 <= j < |K| && K[j] < k
    ensures forall j :: j in A ==> 0 <= j < |K| && k < K[j]
  {
    var x := s.id;
    if left {
      assert Ids(s) == [x] + Ids(s.right);
      B, A := b, Ids(s) + a;
      GapLeft(b, x, Ids(s.right), a, K, k);
      LeafRegroup(b, Ids(s), a, n);
    } else {
      assert Ids(s) == Ids(s.left) + [x];
      B, A := b + Ids(s), a;
      GapRight(b, Ids(s.left), x, a, K, k);
      LeafRegroup(b, Ids(s), a, n);
    }
  }

  /** The keys of the left subtree of `x` lie below its key, those of the right subtree above. */
  lemma KeysAround(t: Tree, x: int, K: seq<int>)
    requires Ascending(Ids(t), K) && x in Ids(t)
    ensures Find(t, x).Node? && Find(t, x).id == x
    ensures forall j :: j in Ids(Find(t, x).left) ==> 0 <= j < |K| && 0 <= x < |K| && K[j] < K[x]
    ensures forall j :: j in Ids(Find(t, x).right) ==> 0 <= j < |K| && 0 <= x < |K| && K[x] < K[j]
  {
    FindIn(t, x);
    var s := Find(t, x);
    AscendingSegment(Before(t, x), Ids(s), After(t, x), K);
    assert s == Node(s.left, x, s.right);
    AscendingNode(s.left, x, s.right, K);
  }

  /** A key below the entry `x`, which has nothing on its left: everything from `x` on lies above it. */
  lemma GapLeft(b: seq<int>, x: int, r: seq<int>, a: seq<int>, K: seq<int>, k: int)
    requires 0 <= x < |K| && k < K[x]
    requires forall j :: j in r ==> 0 <= j < |K| && K[x] < K[j]
    requires forall j :: j in a ==> 0 <= j < |K| && k < K[j]
    ensures forall j :: j in [x] + r + a ==> 0 <= j < |K| && k < K[j]
  {
  }

  /** A key above the entry `x`, which has nothing on its right: everything up to `x` lies below it. */
  lemma GapRight(b: seq<int>, l: seq<int>, x: int, a: seq<int>, K: seq<int>, k: int)
    requires 0 <= x < |K| && K[x] < k
    requires forall j :: j in l ==> 0 <= j < |K| && K[j] < K[x]
    requires forall j :: j in b ==> 0 <= j < |K| && K[j] < k
    ensures forall j :: j in b + (l + [x]) ==> 0 <= j < |K| && K[j] < k
  {
  }

  /**
   * put's new leaf: where the lookup of a missing `k` stops at `x`, a new
   * slot `|K|` holding `k`, placed just before (or just after) the subtree
   * of `x` in in-order, keeps the keys ascending and adds exactly the pair
   * `k` to `v` to the map.
   */
  lemma {:induction false} InsertLeafOrder<T>(t: Tree, x: int, k: int, K: seq<int>, V: seq<T>, v: T, left: bool)
    requires Ascending(Ids(t), K) && OnPath(t, x, k, K) && |V| == |K|
    requires 0 <= x < |K| && K[x] != k && left == (k < K[x])
    requires if left then Left(Find(t, x)).Nil? else Right(Find(t, x)).Nil?
    ensures x in Ids(t) && k !in KeySet(Ids(t), K)
    ensures var ids' := Before(t, x) + (if left then [|K|] + Ids(Find(t, x)) else Ids(Find(t, x)) + [|K|]) + After(t, x);
      && Ascending(ids', K + [k])
      && MapOf(ids', K + [k], V + [v]) == MapOf(Ids(t), K, V)[k := v]
  {
    var B, A := LeafGap(t, x, k, K, left);
    AscendingInsert(B, A, K, k);
    assert forall j :: j in B + A ==> j in B || j in A;
    assert k !in KeySet(A, K);
    MapOfInsert(B, A, K, V, k, v);
    assert k !in KeySet(B, K);
    assert KeySet(Ids(t), K) == KeySet(B, K) + KeySet(A, K);
  }

  /** The keys of the slots `ids`, in the order of `ids`. */
  ghost function KeysOf(ids: seq<int>, K: seq<int>): (r: seq<int>)
    requires forall j :: 0 <= j < |ids| ==> 0 <= ids[j] < |K|
    ensures |r| == |ids| && forall j :: 0 <= j < |ids| ==> r[j] == K[ids[j]]
  {
    seq(|ids|, j requires 0 <= j < |ids| => K[ids[j]])
  }

  /**
   * Read in the order of an ascending `ids`, the keys rise strictly and are
   * exactly the keys the slots hold: each of them once.
   */
  lemma AscendingKeysOf(ids: seq<int>, K: seq<int>)
    requires Ascending(ids, K)
    ensures var ks := KeysOf(ids, K);
      && (forall a, b :: 0 <= a < b < |ks| ==> ks[a] < ks[b])
      && (forall k :: k in ks <==> k in KeySet(ids, K))
  {
    var ks := KeysOf(ids, K);
    forall k | k in KeySet(ids, K)
      ensures k in ks
    {
      var i :| i in ids && 0 <= i < |K| && K[i] == k;
      var j :| 0 <= j < |ids| && ids[j] == i;
      assert ks[j] == k;
    }
  }
}
