/** Sequences without repetition, as the linked lists of lib/list.c stand for them. */
module Lists {
  ghost predicate Distinct<T>(s: seq<T>) {
    forall i, j | 0 <= i < j < |s| :: s[i] != s[j]
  }

  /** LIST_REMOVE. */
  function Without<T(==)>(s: seq<T>, x: T): seq<T> {
    if s == [] then [] else if s[0] == x then s[1..] else [s[0]] + Without(s[1..], x)
  }

  lemma {:induction false} WithoutAll<T>(s: seq<T>, x: T)
    requires Distinct(s)
    ensures Distinct(Without(s, x)) && forall y :: y in Without(s, x) <==> y in s && y != x
  {
    if s != [] {
      assert s == [s[0]] + s[1..];
      WithoutAll(s[1..], x);
      if s[0] == x {
        forall i | 1 <= i < |s| ensures s[i] != x {}
      } else {
        assert forall y :: y in s <==> y == s[0] || y in s[1..];
        var w := Without(s[1..], x);
        forall i | 0 <= i < |w| ensures w[i] != s[0] { assert w[i] in w; }
      }
    }
  }

  lemma AppendAll<T>(s: seq<T>, x: T)
    requires Distinct(s) && x !in s
    ensures Distinct(s + [x]) && forall y :: y in s + [x] <==> y in s || y == x
  {
  }

  /** What is left once those of gone are taken out. */
  ghost function Strip<T>(s: seq<T>, gone: set<T>): seq<T> {
    if s == [] then [] else if s[0] in gone then Strip(s[1..], gone) else [s[0]] + Strip(s[1..], gone)
  }

  lemma {:induction false} StripNone<T>(s: seq<T>, gone: set<T>)
    requires forall x | x in s :: x !in gone
    ensures Strip(s, gone) == s
  {
    if s != [] { StripNone(s[1..], gone); }
  }

  /** Taking out one more. */
  lemma {:induction false} StripMore<T>(s: seq<T>, gone: set<T>, x: T)
    requires Distinct(s) && x !in gone
    ensures Without(Strip(s, gone), x) == Strip(s, gone + {x})
  {
    if s != [] {
      StripMore(s[1..], gone, x);
      if s[0] == x { StripSame(s[1..], gone, x); }
      var rest := Strip(s[1..], gone);
      assert ([s[0]] + rest)[1..] == rest;
    }
  }

  lemma {:induction false} StripSame<T>(s: seq<T>, gone: set<T>, x: T)
    requires x !in s
    ensures Strip(s, gone) == Strip(s, gone + {x})
  {
    if s != [] { StripSame(s[1..], gone, x); }
  }
}
