/** The circular doubly-linked lists of lib/list.c, as the sequences they stand for. */
module Ring {
  import opened Lists

  class Link {
    var next: Link?
    var prev: Link?

    constructor ()
    {
      next, prev := null, null;
    }
  }

  ghost function Drop(s: seq<Link>, k: int): (r: seq<Link>)
    requires 0 <= k < |s|
    ensures |r| == |s| - 1 && forall i | 0 <= i < |r| :: r[i] == s[if i < k then i else i + 1]
  {
    s[..k] + s[k + 1..]
  }

  class List {
    var head: Link?
    ghost var items: seq<Link>

    constructor ()
      ensures Valid() && items == []
    {
      head, items := null, [];
    }

    /** Item i is linked to its neighbours, the last to the first. */
    ghost predicate Linked(i: int)
      requires 0 <= i < |items|
      reads this, items
    {
      && items[i].next == items[if i + 1 == |items| then 0 else i + 1]
      && items[i].prev == items[if i == 0 then |items| - 1 else i - 1]
    }

    ghost predicate Valid()
      reads this, items
    {
      && Distinct(items) && head == (if items == [] then null else items[0])
      && (forall i {:trigger Linked(i)} | 0 <= i < |items| :: Linked(i))
    }

    /** lib_listAdd: t becomes the last item. */
    method Add(t: Link)
      requires Valid() && t !in items
      modifies this, items, t
      ensures Valid() && items == old(items) + [t]
    {
      if head == null {
        t.next, t.prev := t, t;
        head := t;
        items := [t];
      } else {
        assert Linked(0) && Linked(|items| - 1);
        ghost var n := |items|;
        t.prev := head.prev;
        head.prev.next := t;
        t.next := head;
        head.prev := t;
        items := items + [t];
        forall i | 0 <= i < |items| ensures Linked(i) {
          if i < n { assert old(Linked(i)); }
        }
      }
    }

    /** The pointer writes of lib_listRemove. */
    method Cut(t: Link)
      requires t.next != null && t.prev != null
      modifies this`head, t, t.next`prev, t.prev`next
      ensures t.next == null && t.prev == null
      ensures var n, p := old(t.next), old(t.prev);
        if n == t && p == t then head == null
        else (n != t ==> n.prev == p) && (p != t ==> p.next == n) && head == if old(head) == t then n else old(head)
    {
      if t.next == t && t.prev == t {
        head := null;
      } else {
        var n, p := t.next, t.prev;
        p.next := n;
        n.prev := p;
        if t == head {
          head := n;
        }
      }
      t.next, t.prev := null, null;
    }

    /** lib_listRemove: item k is gone, the others keep their order. */
    method Remove(t: Link, ghost k: int)
      requires Valid() && 0 <= k < |items| && items[k] == t
      modifies this, items
      ensures Valid() && items == Drop(old(items), k) && t.next == null && t.prev == null
    {
      ghost var n := |items|;
      ghost var a, b := Before(k, n), After(k, n);
      assert Linked(k) && Linked(a) && Linked(b) && Linked(0);
      Cut(t);
      items := Drop(items, k);
      forall i | 0 <= i < |items| ensures Linked(i) {
        Rejoined(t, k, i);
      }
    }

    /** The places around place i, round the end, in a list of n. */
    ghost function After(i: int, n: int): int {
      if i + 1 == n then 0 else i + 1
    }

    ghost function Before(i: int, n: int): int {
      if i == 0 then n - 1 else i - 1
    }

    twostate lemma Rejoined(new t: Link, new k: int, new i: int)
      requires old(Valid()) && 0 <= k < |old(items)| && old(items)[k] == t && items == Drop(old(items), k)
      requires 0 <= i < |items|
      requires var s, n := old(items), |old(items)|;
        s[Before(k, n)].next == s[After(k, n)] && s[After(k, n)].prev == s[Before(k, n)]
      requires forall j | 0 <= j < |old(items)| && j != k && j != Before(k, |old(items)|) ::
        old(items)[j].next == old(items[j].next)
      requires forall j | 0 <= j < |old(items)| && j != k && j != After(k, |old(items)|) ::
        old(items)[j].prev == old(items[j].prev)
      ensures Linked(i)
    {
      var s, n, m := old(items), |old(items)|, |items|;
      var j := if i < k then i else i + 1;
      assert old(Linked(j));
      assert items[i] == s[j];
      var f, g := After(i, m), Before(i, m);
      assert items[f] == s[if f < k then f else f + 1] && items[g] == s[if g < k then g else g + 1];
    }
  }
}
