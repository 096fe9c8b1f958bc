/** rb_transplant (lib/rb.c). */
module RbTransplant {
  import opened GapTree
  import opened RbAugment

  /** v fits the place below p that u leaves. */
  ghost predicate Fits(t: Tree, v: Entry, p: Entry?, left: bool)
    requires v in t.nodes && (p != null ==> p in t.nodes)
    reads t`nodes, t`order, t.nodes`lo, t.nodes`idx, t.nodes`hi
  {
    && 0 <= v.lo <= v.idx < v.hi <= |t.order| && t.order[v.idx] == v
    && (p == null ==> v.lo == 0 && v.hi == |t.order|)
    && (p != null && left ==> v.lo == p.lo && v.hi == p.idx)
    && (p != null && !left ==> v.lo == p.idx + 1 && v.hi == p.hi)
  }

  /** Changing a child of the foot leaves the spine above it alone. */
  twostate lemma SpineKept(t: Tree, new p: Entry, new c: seq<Entry>)
    requires p in old(t.nodes) && |c| > 0 && c[0] == p && t.nodes == old(t.nodes)
    requires (forall j | 0 <= j < |c| :: c[j] in old(t.nodes)) && old(t.Spine(c))
    requires forall j | 0 < j < |c| :: c[j] != p
    requires t.order == old(t.order) && t.root == old(t.root)
    requires forall n {:trigger t.SameSlice(n)} | n in t.nodes :: t.SameSlice(n)
    requires forall n {:trigger t.SameParent(n)} | n in t.nodes && n in c :: t.SameParent(n)
    requires forall n {:trigger t.SameKids(n)} | n in t.nodes && n != p :: t.SameKids(n)
    ensures t.Spine(c)
  {
    forall j | 0 <= j < |c| ensures t.Rung(c, j) {
      assert old(t.Rung(c, j));
      assert t.SameSlice(c[j]);
      assert t.SameParent(c[j]);
      if j + 1 < |c| {
        assert old(t.Rung(c, j + 1));
        assert t.SameSlice(c[j + 1]);
        assert t.SameKids(c[j + 1]);
      }
    }
  }

  /** First half: the parent takes v in place of u. */
  method ReplaceChild(t: Tree, u: Entry, v: Entry?, p: Entry, ghost c: seq<Entry>, ghost a: int, ghost b: int)
    requires u !in t.nodes && p in t.nodes && (p.left == u || p.right == u) && p.left != p.right
    requires t.Spine(c) && c[0] == p && Keyed(t) && t.ExactOffGaps(a, b)
    requires p.left == u ==> FootedBy(t, p, v, p.right, c, a, b)
    requires p.left != u ==> FootedBy(t, p, p.left, v, c, a, b)
    modifies p`left, p`right, c`lmaxgap, c`rmaxgap
    ensures p.left == if old(p.left) == u then v else old(p.left)
    ensures p.right == if old(p.left) == u then old(p.right) else v
    ensures t.Spine(c) && t.ExactOffGaps(a, b) && Fresh(t, c)
  {
    t.SpineDistinct(c);
    if u == p.left {
      p.left := v;
    } else {
      p.right := v;
    }
    SpineKept(t, p, c);
    AugmentOver(t, p, c, a, b);
  }

  /** Second half: v takes its new parent. */
  method Adopt(t: Tree, v: Entry, p: Entry?, ghost left: bool, ghost c: seq<Entry>, ghost a: int, ghost b: int)
    requires v in t.nodes && v !in c && (p != null ==> p in t.nodes) && Fits(t, v, p, left)
    requires p == null ==> c == [] && t.root == v
    requires p != null ==> t.Spine(c) && c[0] == p && (if left then p.left == v else p.right == v) && p.left != p.right
    requires Keyed(t) && t.ExactOffGaps(a, b) && Footed(t, v, [v] + c, a, b)
    modifies v`parent, v`lmaxgap, v`rmaxgap, c`lmaxgap, c`rmaxgap
    ensures v.parent == p && t.Spine([v] + c) && t.ExactOffGaps(a, b) && Fresh(t, [v] + c)
  {
    v.parent := p;
    if p != null {
      SpineAway(t, v, c);
    }
    SpineOn(t, v, c);
    AugmentOver(t, v, [v] + c, a, b);
  }

  /** Setting the parent of a node off the spine leaves the spine alone. */
  twostate lemma SpineAway(t: Tree, new v: Entry, new c: seq<Entry>)
    requires v !in c && t.nodes == old(t.nodes) && (forall j | 0 <= j < |c| :: c[j] in old(t.nodes)) && old(t.Spine(c))
    requires t.order == old(t.order) && t.root == old(t.root)
    requires forall n {:trigger t.SameSlice(n)} | n in t.nodes :: t.SameSlice(n)
    requires forall n {:trigger t.SameParent(n)} | n in t.nodes && n != v :: t.SameParent(n)
    requires forall n {:trigger t.SameKids(n)} | n in t.nodes :: t.SameKids(n)
    ensures t.Spine(c)
  {
    forall j | 0 <= j < |c| ensures t.Rung(c, j) {
      assert old(t.Rung(c, j));
      assert t.SameSlice(c[j]);
      assert t.SameParent(c[j]);
      if j + 1 < |c| {
        assert t.SameSlice(c[j + 1]);
        assert t.SameKids(c[j + 1]);
      }
    }
  }

  lemma SpineOn(t: Tree, v: Entry, c: seq<Entry>)
    requires v in t.nodes && t.Up(v) && v.parent == (if |c| > 0 then c[0] else null) && (|c| > 0 ==> t.Spine(c))
    ensures t.Spine([v] + c)
  {
    var d := [v] + c;
    forall j | 0 <= j < |d| ensures t.Rung(d, j) {
      if j > 0 {
        assert t.Rung(c, j - 1);
      }
    }
  }

  /** What rb_transplant of u by v needs, the ghost numbers already telling of the tree to come. */
  ghost predicate Staged(t: Tree, u: Entry, v: Entry?, c: seq<Entry>, a: int, b: int)
    reads t, t.nodes, t.order, u
  {
    && u !in t.nodes && Keyed(t) && t.ExactOffGaps(a, b) && (v != null ==> v in t.nodes && v !in c)
    && (u.parent == null ==> c == [])
    && (u.parent != null ==>
      u.parent in t.nodes && (u.parent.left == u || u.parent.right == u) && u.parent.left != u.parent.right)
    && (u.parent != null ==> t.Spine(c) && c[0] == u.parent)
    && (u.parent != null && u.parent.left == u ==> FootedBy(t, u.parent, v, u.parent.right, c, a, b))
    && (u.parent != null && u.parent.left != u ==> FootedBy(t, u.parent, u.parent.left, v, c, a, b))
    && (v != null ==> Fits(t, v, u.parent, u.parent != null && u.parent.left == u) && Footed(t, v, [v] + c, a, b))
  }

  /** rb_transplant. */
  method Transplant(t: Tree, u: Entry, v: Entry?, ghost c: seq<Entry>, ghost a: int, ghost b: int)
    requires Staged(t, u, v, c, a, b)
    modifies t`root, Just(u.parent)`left, Just(u.parent)`right, Just(v)`parent, Just(v)`lmaxgap, Just(v)`rmaxgap
    modifies c`lmaxgap, c`rmaxgap
    ensures t.root == if u.parent == null then v else old(t.root)
    ensures u.parent != null ==> u.parent.left == if old(u.parent.left) == u then v else old(u.parent.left)
    ensures u.parent != null ==> u.parent.right == if old(u.parent.left) == u then old(u.parent.right) else v
    ensures v != null ==> v.parent == u.parent && t.Spine([v] + c) && Fresh(t, [v] + c)
    ensures v == null && u.parent != null ==> t.Spine(c) && Fresh(t, c)
    ensures t.ExactOffGaps(a, b)
  {
    ghost var left := u.parent != null && u.parent.left == u;
    Relink(t, u, v, c, a, b);
    if v != null {
      Adopt(t, v, u.parent, left, c, a, b);
    }
  }

  /** First half: v in place of u below u's parent, or as the root. */
  method Relink(t: Tree, u: Entry, v: Entry?, ghost c: seq<Entry>, ghost a: int, ghost b: int)
    requires Staged(t, u, v, c, a, b)
    modifies t`root, Just(u.parent)`left, Just(u.parent)`right, c`lmaxgap, c`rmaxgap
    ensures t.root == if u.parent == null then v else old(t.root)
    ensures u.parent != null ==> u.parent.left == if old(u.parent.left) == u then v else old(u.parent.left)
    ensures u.parent != null ==> u.parent.right == if old(u.parent.left) == u then old(u.parent.right) else v
    ensures u.parent != null ==> t.Spine(c) && Fresh(t, c) && (v != null ==> u.parent.left != u.parent.right)
    ensures Keyed(t) && t.ExactOffGaps(a, b)
    ensures v != null ==>
      Fits(t, v, u.parent, old(u.parent != null && u.parent.left == u)) && Footed(t, v, [v] + c, a, b)
  {
    if u.parent != null {
      ReplaceChild(t, u, v, u.parent, c, a, b);
    } else {
      t.root := v;
    }
  }
}
