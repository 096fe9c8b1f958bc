/**
 msg_map, the copying in proc_respond and the lengths in msg_release (proc/msg.c): a window of
 pages in the receiver's space that shows exactly the sender's bytes.

 src lists the physical pages behind the sender's pages from FLOOR(data) on; an address relative
 to FLOOR(data), or to the start of the window, is called an offset.
 */
module MsgPages {
  import opened Kernel

  function Floor(x: nat): nat {
    x - x % SIZE_PAGE
  }

  function Ceil(x: nat): nat {
    Floor(x + SIZE_PAGE - 1)
  }

  function One(b: bool): nat {
    if b then 1 else 0
  }

  /** The offset of the data in its first page, 0 if it begins on a page boundary. */
  function Boffs(data: nat): nat {
    data % SIZE_PAGE
  }

  /** How many pages are shared as they are. */
  function Whole(data: nat, size: nat): nat {
    if Floor(data + size) > Ceil(data) then (Floor(data + size) - Ceil(data)) / SIZE_PAGE else 0
  }

  /** How many bytes of the last page are copied. */
  function Eoffs(data: nat, size: nat): nat {
    if Boffs(data) > 0 && Floor(data) == Floor(data + size) then 0 else (data + size) % SIZE_PAGE
  }

  /** The number of pages in the window. */
  function Window(data: nat, size: nat): nat {
    One(Boffs(data) > 0) + One(Eoffs(data, size) > 0) + Whole(data, size)
  }

  /** The window is as long as the range of pages the data touches. */
  lemma WindowSpans(data: nat, size: nat)
    requires size > 0
    ensures Window(data, size) * SIZE_PAGE == Ceil(data + size) - Floor(data)
    ensures Window(data, size) > 0
    ensures (Window(data, size) - 1) * SIZE_PAGE < Boffs(data) + size <= Window(data, size) * SIZE_PAGE
    ensures Eoffs(data, size) > 0 ==> Boffs(data) + size == (Window(data, size) - 1) * SIZE_PAGE + Eoffs(data, size)
    ensures Eoffs(data, size) > 0 ==> Floor(data + size) - Floor(data) == (Window(data, size) - 1) * SIZE_PAGE
    ensures Eoffs(data, size) == 0 && Window(data, size) > 1 ==> Boffs(data) + size == Window(data, size) * SIZE_PAGE
    ensures Ceil(data) - Floor(data) == One(Boffs(data) > 0) * SIZE_PAGE
  {
    var p := SIZE_PAGE;
    var a, b := data / p, data % p;
    var c, e := (data + size) / p, (data + size) % p;
    assert data == a * p + b && data + size == c * p + e;
    assert Floor(data) == a * p && Floor(data + size) == c * p;
    assert Ceil(data) == (a + One(b > 0)) * p;
    assert Ceil(data + size) == (c + One(e > 0)) * p;
    assert c >= a;
    if c > a + One(b > 0) {
      assert Whole(data, size) == c - a - One(b > 0);
    }
  }

  /** How much msg_release unmaps, working from an address and a size. */
  function Released(at: nat, size: nat): nat {
    Ceil(at + size) - Floor(at)
  }

  /** When it works from the address msg_map returned, msg_release unmaps the window msg_map mapped. */
  lemma ReleasedLength(data: nat, size: nat, w: nat)
    requires size > 0 && w % SIZE_PAGE == 0
    ensures Released(w + Boffs(data), size) == Window(data, size) * SIZE_PAGE
    ensures Floor(w + Boffs(data)) == w
  {
    var b := Boffs(data);
    assert Boffs(w + b) == b;
    WindowSpans(data, size);
    WindowSpans(w + b, size);
    SameWindow(Window(w + b, size), Window(data, size), b + size);
  }

  lemma SameWindow(m: nat, n: nat, x: nat)
    requires (m - 1) * SIZE_PAGE < x <= m * SIZE_PAGE && (n - 1) * SIZE_PAGE < x <= n * SIZE_PAGE
    ensures m == n
  {
  }

  /**
   When msg_map fails after taking its window, proc_recv has NULL in place of the address: msg_release unmaps the
   whole window exactly if the data would touch no more pages from a page boundary on, and one page less otherwise.
   */
  lemma ReleasedAfterFailure(data: nat, size: nat)
    requires size > 0
    ensures Released(0, size) == Window(data, size) * SIZE_PAGE <==> Boffs(data) + (size - 1) % SIZE_PAGE < SIZE_PAGE
    ensures Released(0, size) == Window(data, size) * SIZE_PAGE
      || Released(0, size) == (Window(data, size) - 1) * SIZE_PAGE
  {
    WindowSpans(data, size);
    WindowSpans(0, size);
    var q, r := (size - 1) / SIZE_PAGE, (size - 1) % SIZE_PAGE;
    assert size == q * SIZE_PAGE + r + 1;
    assert Window(0, size) == q + 1;
    assert Window(data, size) == q + 1 + One(Boffs(data) + r >= SIZE_PAGE);
  }

  /** Two bytes across a page boundary: two pages mapped, one unmapped. */
  lemma PageLeftBehind()
    ensures Window(0x1fff, 2) == 2 && Released(0, 2) == SIZE_PAGE
  {
  }

  /** hal_memcpy into a page. */
  function Splice(page: seq<bv8>, at: nat, bytes: seq<bv8>): (r: seq<bv8>)
    requires at + |bytes| <= |page|
    ensures |r| == |page|
    ensures forall i | 0 <= i < |r| :: r[i] == if at <= i < at + |bytes| then bytes[i - at] else page[i]
  {
    page[..at] + bytes + page[at + |bytes|..]
  }

  type Pages = map<nat, seq<bv8>>

  ghost predicate Sized(pages: Pages) {
    forall p | p in pages :: |pages[p]| == SIZE_PAGE
  }

  /** The byte at an offset in a run of pages. */
  ghost function ByteAt(pages: Pages, run: seq<nat>, offs: nat): bv8 {
    var k, o := offs / SIZE_PAGE, offs % SIZE_PAGE;
    if k < |run| && run[k] in pages && o < |pages[run[k]]| then pages[run[k]][o] else 0
  }

  /**
   One of the two parts of a message, i or o: where the sender has it, the physical pages there, and two fresh
   pages of the kernel's.
   */
  datatype Part = Part(data: nat, size: nat, src: seq<nat>, bp: nat, ep: nat)

  ghost predicate Shaped(m: Part) {
    m.size > 0 && |m.src| == Window(m.data, m.size)
  }

  ghost predicate Given(pages: Pages, m: Part) {
    && Sized(pages) && Shaped(m)
    && (forall k | 0 <= k < |m.src| :: m.src[k] in pages && m.src[k] != m.bp && m.src[k] != m.ep)
    && m.bp in pages && m.ep in pages && m.bp != m.ep
  }

  /**
   The page behind the last page of the window when its end is copied: the first shadow page serves if
   the two copies do not meet.
   */
  function EndPage(m: Part): nat {
    if Boffs(m.data) == 0 || Eoffs(m.data, m.size) >= Boffs(m.data) then m.ep else m.bp
  }

  /** Page k of the window is a shadow page at its start, or at its end. */
  predicate First(m: Part, k: nat) {
    k == 0 && Boffs(m.data) > 0
  }

  predicate Last(m: Part, k: nat) {
    k + 1 == |m.src| && Eoffs(m.data, m.size) > 0
  }

  /** The pages of the window. */
  ghost predicate Shadows(m: Part, win: seq<nat>) {
    && |win| == |m.src|
    && forall k: nat | k < |win| ::
         win[k] == if First(m, k) then m.bp else if Last(m, k) then EndPage(m) else m.src[k]
  }

  /** An offset of the message itself. */
  predicate InRange(m: Part, o: nat) {
    Boffs(m.data) <= o < Boffs(m.data) + m.size
  }

  /** The physical page behind offset o is behind no other page of the run. */
  ghost predicate Once(src: seq<nat>, o: nat) {
    o / SIZE_PAGE < |src| ==> forall k | 0 <= k < |src| && k != o / SIZE_PAGE :: src[k] != src[o / SIZE_PAGE]
  }

  /** Byte x of physical page p is one of those copied at the start of the message, or at its end. */
  ghost predicate AtStart(m: Part, p: nat, x: nat) {
    && |m.src| > 0 && Boffs(m.data) > 0 && p == m.src[0]
    && Boffs(m.data) <= x < Boffs(m.data) + Min(m.size, SIZE_PAGE - Boffs(m.data))
  }

  ghost predicate AtEnd(m: Part, p: nat, x: nat) {
    |m.src| > 0 && Eoffs(m.data, m.size) > 0 && p == m.src[|m.src| - 1] && x < Eoffs(m.data, m.size)
  }

  ghost predicate Copied(m: Part, p: nat, x: nat) {
    AtStart(m, p, x) || AtEnd(m, p, x)
  }

  /** Byte x of physical page p is a byte of the message. */
  ghost predicate Touched(m: Part, p: nat, x: nat) {
    exists k: nat :: k < |m.src| && m.src[k] == p && InRange(m, k * SIZE_PAGE + x)
  }

  /** Which offsets the copies cover. */
  lemma CopiedWhere(m: Part, k: nat, x: nat)
    requires Shaped(m) && k < |m.src| && x < SIZE_PAGE
    ensures First(m, k) ==> (AtStart(m, m.src[0], x) <==> InRange(m, k * SIZE_PAGE + x)) && !Last(m, k)
    ensures Last(m, k) ==> (AtEnd(m, m.src[|m.src| - 1], x) <==> InRange(m, k * SIZE_PAGE + x))
    ensures !First(m, k) && !Last(m, k) ==> InRange(m, k * SIZE_PAGE + x)
  {
    WindowSpans(m.data, m.size);
  }

  lemma Offset(o: nat)
    ensures o == (o / SIZE_PAGE) * SIZE_PAGE + o % SIZE_PAGE
  {
  }

  lemma InWindow(m: Part, o: nat)
    requires Shaped(m) && InRange(m, o)
    ensures o / SIZE_PAGE < |m.src|
  {
    WindowSpans(m.data, m.size);
    Offset(o);
  }

  /** Two bytes of the message at the same place of the same physical page are the same byte. */
  lemma SamePage(pages: Pages, m: Part, win: seq<nat>, o: nat, i: nat)
    requires Given(pages, m) && Shadows(m, win)
    requires InRange(m, o) && InRange(m, i) && i != o && Once(m.src, i)
    ensures o / SIZE_PAGE < |win| && i / SIZE_PAGE < |win|
    ensures win[o / SIZE_PAGE] != win[i / SIZE_PAGE] || o % SIZE_PAGE != i % SIZE_PAGE
  {
    Offset(o);
    Offset(i);
    InWindow(m, o);
    InWindow(m, i);
    var k, l := o / SIZE_PAGE, i / SIZE_PAGE;
    if k != l && win[k] == win[l] && o % SIZE_PAGE == i % SIZE_PAGE {
      assert m.src[k] != m.src[l];
      assert win[k] == m.bp && EndPage(m) == m.bp;
      BothOnOne(m, o % SIZE_PAGE);
    }
  }

  /** Where one shadow page serves twice, the two copies do not meet. */
  lemma BothOnOne(m: Part, x: nat)
    requires Shaped(m) && EndPage(m) == m.bp && m.bp != m.ep && x < SIZE_PAGE
    ensures !(InRange(m, x) && Eoffs(m.data, m.size) > 0 && InRange(m, (|m.src| - 1) * SIZE_PAGE + x) && |m.src| > 1)
  {
    WindowSpans(m.data, m.size);
  }

  /** What byte x of page p becomes by the copies proc_respond makes for a part. */
  ghost function Back(was: Pages, m: Part, p: nat, x: nat): bv8
    requires Given(was, m) && p in was && x < SIZE_PAGE
  {
    if AtEnd(m, p, x) then was[EndPage(m)][x] else if AtStart(m, p, x) then was[m.bp][x] else was[p][x]
  }

  ghost predicate CopiedBack(was: Pages, m: Part, now: Pages)
    requires Given(was, m)
  {
    && now.Keys == was.Keys && Sized(now)
    && forall p, x: nat | p in now && x < SIZE_PAGE :: now[p][x] == Back(was, m, p, x)
  }

  /** The sender's byte becomes what the window shows if it is one of the message, and stays if not. */
  lemma BackAt(was: Pages, m: Part, win: seq<nat>, now: Pages, o: nat)
    requires Given(was, m) && Shadows(m, win) && CopiedBack(was, m, now) && Once(m.src, o)
    ensures ByteAt(now, m.src, o) == if InRange(m, o) then ByteAt(was, win, o) else ByteAt(was, m.src, o)
  {
    var k, x := o / SIZE_PAGE, o % SIZE_PAGE;
    Offset(o);
    if k < |m.src| {
      CopiedWhere(m, k, x);
      assert now[m.src[k]][x] == Back(was, m, m.src[k], x);
    } else if InRange(m, o) {
      InWindow(m, o);
    }
  }

  /** The shadow pages hold the bytes copied at both ends. */
  ghost predicate Holds(was: Pages, m: Part, now: Pages)
    requires Given(was, m) && Given(now, m)
  {
    && (forall p: nat, x: nat | AtStart(m, p, x) :: now[m.bp][x] == was[p][x])
    && (forall p: nat, x: nat | AtEnd(m, p, x) :: now[EndPage(m)][x] == was[p][x])
  }

  ghost predicate Besides(was: Pages, m: Part, now: Pages) {
    now.Keys == was.Keys && forall p | p in was && p != m.bp && p != m.ep :: now[p] == was[p]
  }

  /** Then the window shows the bytes of the message. */
  lemma Shown(was: Pages, m: Part, win: seq<nat>, now: Pages, o: nat)
    requires Given(was, m) && Given(now, m) && Shadows(m, win) && Holds(was, m, now) && Besides(was, m, now)
    requires InRange(m, o)
    ensures ByteAt(now, win, o) == ByteAt(was, m.src, o)
  {
    var k, x := o / SIZE_PAGE, o % SIZE_PAGE;
    Offset(o);
    InWindow(m, o);
    CopiedWhere(m, k, x);
  }

  /** A byte is written: a byte of the message that is not at its place stays as the window shows it. */
  lemma OtherByte(was: Pages, m: Part, win: seq<nat>, o: nat, b: bv8, i: nat)
    requires Given(was, m) && Shadows(m, win) && InRange(m, o) && o / SIZE_PAGE < |win| && i != o && Once(m.src, i)
    requires win[o / SIZE_PAGE] in was && |was[win[o / SIZE_PAGE]]| == SIZE_PAGE
    ensures var now := was[win[o / SIZE_PAGE] := was[win[o / SIZE_PAGE]][o % SIZE_PAGE := b]];
      if InRange(m, i) then ByteAt(now, win, i) == ByteAt(was, win, i)
      else ByteAt(now, m.src, i) == ByteAt(was, m.src, i)
  {
    var k, l := o / SIZE_PAGE, i / SIZE_PAGE;
    if InRange(m, i) {
      SamePage(was, m, win, o, i);
    } else if l < |m.src| && win[k] == m.src[l] {
      Offset(i);
      assert k == l;
      CopiedWhere(m, l, i % SIZE_PAGE);
    }
  }

  class Memory {
    var pages: Pages

    constructor ()
      ensures Sized(pages) && pages == map[]
    {
      pages := map[];
    }

    ghost function At(run: seq<nat>, offs: nat): bv8
      reads this
    {
      ByteAt(pages, run, offs)
    }

    /** The copy of the start of the message into its shadow page. */
    method ShadowStart(m: Part)
      requires Given(pages, m) && Boffs(m.data) > 0
      modifies this
      ensures Given(pages, m) && Besides(old(pages), m, pages)
      ensures forall p: nat, x: nat | AtStart(m, p, x) :: pages[m.bp][x] == old(pages)[p][x]
    {
      WindowSpans(m.data, m.size);
      var boffs := Boffs(m.data);
      var c := Min(m.size, SIZE_PAGE - boffs);
      pages := pages[m.bp := Splice(pages[m.bp], boffs, pages[m.src[0]][boffs..boffs + c])];
    }

    /** The copy of its end: should it go to the same page, what is copied there already stays. */
    method ShadowEnd(m: Part)
      requires Given(pages, m) && Eoffs(m.data, m.size) > 0
      modifies this
      ensures Given(pages, m) && Besides(old(pages), m, pages)
      ensures forall p: nat, x: nat | AtEnd(m, p, x) :: pages[EndPage(m)][x] == old(pages)[p][x]
      ensures forall p: nat, x: nat | AtStart(m, p, x) :: pages[m.bp][x] == old(pages)[m.bp][x]
    {
      WindowSpans(m.data, m.size);
      var last := One(Boffs(m.data) > 0) + Whole(m.data, m.size);
      pages := pages[EndPage(m) := Splice(pages[EndPage(m)], 0, pages[m.src[last]][..Eoffs(m.data, m.size)])];
    }

    /** msg_map: the receiver's window shows the sender's bytes, and no page but the fresh ones is written. */
    method MsgMap(m: Part) returns (win: seq<nat>)
      requires Given(pages, m)
      modifies this
      ensures Given(pages, m) && Shadows(m, win) && Holds(old(pages), m, pages) && Besides(old(pages), m, pages)
      ensures forall o: nat | InRange(m, o) :: At(win, o) == old(At(m.src, o))
    {
      var boffs, n, eoffs := Boffs(m.data), Whole(m.data, m.size), Eoffs(m.data, m.size);
      win := [];
      if boffs > 0 {
        ShadowStart(m);
        win := [m.bp];
      }
      for i := 0 to n
        invariant |win| == i + One(boffs > 0)
        invariant forall k | 0 <= k < |win| :: win[k] == if k == 0 && boffs > 0 then m.bp else m.src[k]
      {
        win := win + [m.src[i + One(boffs > 0)]];
      }
      if eoffs > 0 {
        ShadowEnd(m);
        win := win + [EndPage(m)];
      }
      forall o: nat | InRange(m, o) ensures At(win, o) == old(At(m.src, o)) {
        Shown(old(pages), m, win, pages, o);
      }
    }

    /**
     The receiver writes a byte of the message through its window: no other byte of the message changes,
     for either side.
     */
    method Write(m: Part, win: seq<nat>, o: nat, b: bv8)
      requires Given(pages, m) && Shadows(m, win) && InRange(m, o)
      modifies this
      ensures Given(pages, m) && At(win, o) == b && pages.Keys == old(pages.Keys)
      ensures forall i: nat | InRange(m, i) && i != o && Once(m.src, i) :: At(win, i) == old(At(win, i))
      ensures forall i: nat | !InRange(m, i) && Once(m.src, i) :: At(m.src, i) == old(At(m.src, i))
      ensures forall p | p in pages && p !in win :: pages[p] == old(pages[p])
    {
      InWindow(m, o);
      var k := o / SIZE_PAGE;
      pages := pages[win[k] := pages[win[k]][o % SIZE_PAGE := b]];
      forall i: nat | i != o && Once(m.src, i)
        ensures if InRange(m, i) then At(win, i) == old(At(win, i)) else At(m.src, i) == old(At(m.src, i))
      {
        OtherByte(old(pages), m, win, o, b, i);
      }
    }

    /** The copies proc_respond makes for one part. */
    method CopyBack(m: Part, win: seq<nat>)
      requires Given(pages, m) && Shadows(m, win)
      modifies this
      ensures Given(pages, m) && CopiedBack(old(pages), m, pages)
    {
      if Boffs(m.data) > 0 {
        BackStart(m);
      }
      if Eoffs(m.data, m.size) > 0 {
        BackEnd(m, win);
      }
    }

    method BackStart(m: Part)
      requires Given(pages, m) && Boffs(m.data) > 0
      modifies this
      ensures Given(pages, m) && pages.Keys == old(pages.Keys)
      ensures forall p, x: nat | p in pages && x < SIZE_PAGE ::
        pages[p][x] == if AtStart(m, p, x) then old(pages)[m.bp][x] else old(pages)[p][x]
    {
      WindowSpans(m.data, m.size);
      var boffs := Boffs(m.data);
      var c := Min(SIZE_PAGE - boffs, m.size);
      pages := pages[m.src[0] := Splice(pages[m.src[0]], boffs, pages[m.bp][boffs..boffs + c])];
    }

    method BackEnd(m: Part, win: seq<nat>)
      requires Given(pages, m) && Shadows(m, win) && Eoffs(m.data, m.size) > 0
      modifies this
      ensures Given(pages, m) && pages.Keys == old(pages.Keys)
      ensures forall p, x: nat | p in pages && x < SIZE_PAGE ::
        pages[p][x] == if AtEnd(m, p, x) then old(pages)[EndPage(m)][x] else old(pages)[p][x]
    {
      WindowSpans(m.data, m.size);
      var eoffs := Eoffs(m.data, m.size);
      var last := (Boffs(m.data) + m.size - eoffs) / SIZE_PAGE;
      assert last == |win| - 1;
      assert Last(m, last) && !First(m, last);
      pages := pages[m.src[last] := Splice(pages[m.src[last]], 0, pages[win[last]][..eoffs])];
    }

    /** With them the sender gets back the bytes of the message as the window shows them, and no others. */
    method WriteBack(m: Part, win: seq<nat>)
      requires Given(pages, m) && Shadows(m, win)
      modifies this
      ensures Given(pages, m) && CopiedBack(old(pages), m, pages)
      ensures forall o: nat | InRange(m, o) && Once(m.src, o) :: At(m.src, o) == old(At(win, o))
      ensures forall o: nat | !InRange(m, o) && Once(m.src, o) :: At(m.src, o) == old(At(m.src, o))
      ensures forall p | p in old(pages) && p !in m.src :: p in pages && pages[p] == old(pages[p])
    {
      CopyBack(m, win);
      forall o: nat | Once(m.src, o)
        ensures At(m.src, o) == if InRange(m, o) then old(At(win, o)) else old(At(m.src, o))
      {
        BackAt(old(pages), m, win, pages, o);
      }
    }

    /**
     From msg_map to proc_respond: whatever the receiver writes to the bytes of the message through its
     window arrives at the sender, each at its place, and the sender's other bytes stay as they were.
     What a byte shows is settled this way unless the sender has its page in the range a second time.
     */
    method Exchange(m: Part, edits: seq<Edit>)
      requires Given(pages, m) && forall j | 0 <= j < |edits| :: InRange(m, edits[j].o)
      modifies this
      ensures forall o: nat | InRange(m, o) && Once(m.src, o) :: At(m.src, o) == Edited(old(At(m.src, o)), edits, o)
      ensures forall o: nat | !InRange(m, o) && Once(m.src, o) :: At(m.src, o) == old(At(m.src, o))
    {
      var win := MsgMap(m);
      assert forall o: nat :: At(m.src, o) == old(At(m.src, o));
      WriteAll(m, win, edits);
      WriteBack(m, win);
    }

    /** All the receiver writes to a part of the message. */
    method WriteAll(m: Part, win: seq<nat>, edits: seq<Edit>)
      requires Given(pages, m) && Shadows(m, win) && forall j | 0 <= j < |edits| :: InRange(m, edits[j].o)
      modifies this
      ensures Given(pages, m) && pages.Keys == old(pages.Keys)
      ensures forall o: nat | InRange(m, o) && Once(m.src, o) :: At(win, o) == Edited(old(At(win, o)), edits, o)
      ensures forall o: nat | !InRange(m, o) && Once(m.src, o) :: At(m.src, o) == old(At(m.src, o))
      ensures forall p | p in pages && p !in win :: pages[p] == old(pages[p])
    {
      for j := 0 to |edits|
        invariant Given(pages, m) && pages.Keys == old(pages.Keys)
        invariant forall o: nat | InRange(m, o) && Once(m.src, o) ::
          At(win, o) == Edited(old(At(win, o)), edits[..j], o)
        invariant forall o: nat | !InRange(m, o) && Once(m.src, o) :: At(m.src, o) == old(At(m.src, o))
        invariant forall p | p in pages && p !in win :: pages[p] == old(pages[p])
      {
        assert edits[..j + 1][..j] == edits[..j];
        Write(m, win, edits[j].o, edits[j].b);
      }
      assert edits[..|edits|] == edits;
    }

    /** proc_recv maps both parts, and the receiver writes to the second. */
    method ServeBoth(i: Part, m: Part, edits: seq<Edit>) returns (iwin: seq<nat>, win: seq<nat>)
      requires Given(pages, i) && Given(pages, m) && Fresh(i, m)
      requires forall j | 0 <= j < |edits| :: InRange(m, edits[j].o)
      modifies this
      ensures Given(pages, i) && Given(pages, m) && pages.Keys == old(pages.Keys)
      ensures Shadows(i, iwin) && Shadows(m, win) && Holds(old(pages), i, pages)
      ensures forall o: nat | InRange(m, o) && Once(m.src, o) :: At(win, o) == Edited(old(At(m.src, o)), edits, o)
      ensures forall p | p in pages && p !in win && !Own(i, p) && !Own(m, p) :: pages[p] == old(pages[p])
    {
      iwin := MsgMap(i);
      win := MsgMap(m);
      assert Holds(old(pages), i, pages);
      ghost var shown := pages;
      WriteAll(m, win, edits);
      assert pages[i.bp] == shown[i.bp] && pages[i.ep] == shown[i.ep];
    }

    /**
     The same with both parts of a message, of which the receiver may write only the second: proc_respond copies
     back first i, then o. A byte of o is lost if i has it among the bytes it copies and o has not; all others
     arrive, and nothing outside o changes.
     */
    method ExchangeBoth(i: Part, m: Part, edits: seq<Edit>)
      requires Given(pages, i) && Given(pages, m) && Fresh(i, m)
      requires forall j | 0 <= j < |edits| :: InRange(m, edits[j].o)
      modifies this
      ensures pages.Keys == old(pages.Keys) && Sized(pages)
      ensures forall o: nat | InRange(m, o) && Once(m.src, o) ::
        At(m.src, o) == if Stale(i, m, o) then old(At(m.src, o)) else Edited(old(At(m.src, o)), edits, o)
      ensures forall p, x: nat | p in pages && !Own(i, p) && !Own(m, p) && x < SIZE_PAGE && !Touched(m, p, x) ::
        pages[p][x] == old(pages)[p][x]
    {
      var iwin, win := ServeBoth(i, m, edits);
      ghost var written := pages;
      CopyBack(i, iwin);
      ghost var half := pages;
      CopyBack(m, win);
      forall o: nat | InRange(m, o) && Once(m.src, o)
        ensures At(m.src, o) == if Stale(i, m, o) then old(At(m.src, o)) else Edited(old(At(m.src, o)), edits, o)
      {
        BothBack(old(pages), i, written, m, half, win, pages, o);
      }
      forall p, x: nat | p in pages && !Own(i, p) && !Own(m, p) && x < SIZE_PAGE && !Touched(m, p, x)
        ensures pages[p][x] == old(pages)[p][x]
      {
        Untouched(old(pages), i, written, m, half, win, pages, p, x);
      }
    }
  }

  /** The fresh pages of a part. */
  predicate Own(m: Part, p: nat) {
    p == m.bp || p == m.ep
  }

  /** The pages fresh for one part are not pages of the other. */
  ghost predicate Fresh(i: Part, m: Part) {
    && (forall k | 0 <= k < |i.src| :: !Own(m, i.src[k]))
    && (forall k | 0 <= k < |m.src| :: !Own(i, m.src[k]))
    && !Own(m, i.bp) && !Own(m, i.ep)
  }

  /** The byte at o of part m is shared with the receiver, while part i has a copy of it. */
  ghost predicate Stale(i: Part, m: Part, o: nat) {
    var k, x := o / SIZE_PAGE, o % SIZE_PAGE;
    k < |m.src| && Copied(i, m.src[k], x) && !Copied(m, m.src[k], x)
  }

  /** Parts that have no byte in common lose none. */
  lemma ApartNotStale(i: Part, m: Part, o: nat)
    requires Shaped(i) && Shaped(m) && InRange(m, o)
    requires forall p: nat, x: nat | Touched(i, p, x) :: !Touched(m, p, x)
    ensures !Stale(i, m, o)
  {
    var k, x := o / SIZE_PAGE, o % SIZE_PAGE;
    Offset(o);
    if Stale(i, m, o) {
      assert Touched(m, m.src[k], x);
      CopiedTouched(i, m.src[k], x);
    }
  }

  lemma CopiedTouched(m: Part, p: nat, x: nat)
    requires Shaped(m) && Copied(m, p, x)
    ensures Touched(m, p, x)
  {
    if AtStart(m, p, x) {
      CopiedWhere(m, 0, x);
      assert InRange(m, 0 * SIZE_PAGE + x);
    } else {
      var last := |m.src| - 1;
      CopiedWhere(m, last, x);
      assert InRange(m, last * SIZE_PAGE + x);
    }
  }

  /** One byte sent from the middle of a page the answer is to fill: what is written over it is lost. */
  lemma AnswerLost(p: nat, i: Part, m: Part)
    requires i.data == 16 && i.size == 1 && i.src == [p]
    requires m.data == 0 && m.size == SIZE_PAGE && m.src == [p]
    ensures Shaped(i) && Shaped(m) && Stale(i, m, 16)
  {
  }

  lemma BothBack(orig: Pages, i: Part, written: Pages, m: Part, half: Pages, win: seq<nat>, now: Pages, o: nat)
    requires Given(orig, i) && Given(orig, m) && Given(written, i) && Given(written, m) && Given(half, m) && Fresh(i, m)
    requires Holds(orig, i, written) && CopiedBack(written, i, half) && CopiedBack(half, m, now)
    requires Shadows(m, win) && InRange(m, o) && Once(m.src, o)
    ensures ByteAt(now, m.src, o) == if Stale(i, m, o) then ByteAt(orig, m.src, o) else ByteAt(written, win, o)
  {
    var k, x := o / SIZE_PAGE, o % SIZE_PAGE;
    Offset(o);
    InWindow(m, o);
    CopiedWhere(m, k, x);
    BackAt(half, m, win, now, o);
    assert half[win[k]][x] == Back(written, i, win[k], x);
  }

  lemma NotTouched(m: Part, win: seq<nat>, p: nat, x: nat)
    requires Shaped(m) && Shadows(m, win) && !Own(m, p) && x < SIZE_PAGE && !Touched(m, p, x)
    ensures p !in win && !Copied(m, p, x)
  {
    if Copied(m, p, x) {
      CopiedTouched(m, p, x);
    }
    if p in win {
      var k :| 0 <= k < |win| && win[k] == p;
      CopiedWhere(m, k, x);
    }
  }

  lemma Untouched(orig: Pages, i: Part, written: Pages, m: Part, half: Pages, win: seq<nat>, now: Pages, p: nat, x: nat)
    requires Given(orig, i) && Given(written, i) && Given(half, m) && Shadows(m, win)
    requires Holds(orig, i, written) && CopiedBack(written, i, half) && CopiedBack(half, m, now)
    requires p in orig && p in written && !Own(m, p) && x < SIZE_PAGE && !Touched(m, p, x)
    requires p !in win ==> written[p] == orig[p]
    ensures p in now && |now[p]| == SIZE_PAGE && now[p][x] == orig[p][x]
  {
    NotTouched(m, win, p, x);
    assert half[p][x] == Back(written, i, p, x);
  }

  datatype Edit = Edit(o: nat, b: bv8)

  /** The byte at o, first b, after the edits. */
  ghost function Edited(b: bv8, edits: seq<Edit>, o: nat): bv8
    decreases |edits|
  {
    if edits == [] then b
    else if edits[|edits| - 1].o == o then edits[|edits| - 1].b
    else Edited(b, edits[..|edits| - 1], o)
  }
}
