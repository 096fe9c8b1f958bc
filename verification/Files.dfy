/** Open files and descriptors (posix/posix.c): reference counts against what refers. */
module Files {
  import opened Kernel

  const MAX_FD_COUNT: nat := 512

  class File {
    var refs: int
    ghost var closes: nat  // how often the backing object was closed

    constructor ()
      ensures refs == 1 && closes == 0
    {
      refs, closes := 1, 0;
    }
  }

  datatype Slot = Free | Open(file: File, cloexec: bool)

  /** How many descriptors of a table refer to f. */
  ghost function Count(t: seq<Slot>, f: File): (n: int)
    ensures n >= 0
  {
    if t == [] then 0 else Count(t[..|t| - 1], f) + if t[|t| - 1].Open? && t[|t| - 1].file == f then 1 else 0
  }

  /** How many descriptors of all tables refer to f. */
  ghost function Sum(ts: seq<seq<Slot>>, f: File): (n: int)
    ensures n >= 0
  {
    if ts == [] then 0 else Sum(ts[..|ts| - 1], f) + Count(ts[|ts| - 1], f)
  }

  ghost function Refers(s: Slot, f: File): nat {
    if s.Open? && s.file == f then 1 else 0
  }

  lemma {:induction false} CountSet(t: seq<Slot>, i: int, s: Slot, f: File)
    requires 0 <= i < |t|
    ensures Count(t[i := s], f) == Count(t, f) - Refers(t[i], f) + Refers(s, f)
    decreases |t|
  {
    var n := |t| - 1;
    if i < n {
      CountSet(t[..n], i, s, f);
      assert t[i := s][..n] == t[..n][i := s];
    } else {
      assert t[i := s][..n] == t[..n];
    }
  }

  lemma {:induction false} SumSet(ts: seq<seq<Slot>>, k: int, t: seq<Slot>, f: File)
    requires 0 <= k < |ts|
    ensures Sum(ts[k := t], f) == Sum(ts, f) - Count(ts[k], f) + Count(t, f)
    decreases |ts|
  {
    var n := |ts| - 1;
    if k < n {
      SumSet(ts[..n], k, t, f);
      assert ts[k := t][..n] == ts[..n][k := t];
    } else {
      assert ts[k := t][..n] == ts[..n];
    }
  }

  /** A descriptor that refers to f is counted. */
  lemma {:induction false} CountSeen(t: seq<Slot>, i: int, f: File)
    requires 0 <= i < |t| && t[i].Open? && t[i].file == f
    ensures Count(t, f) > 0
  {
    CountSet(t, i, Free, f);
  }

  lemma {:induction false} SumSeen(ts: seq<seq<Slot>>, k: int, f: File)
    requires 0 <= k < |ts|
    ensures Sum(ts, f) >= Count(ts[k], f)
    decreases |ts|
  {
    var n := |ts| - 1;
    if k < n { SumSeen(ts[..n], k, f); }
  }

  lemma CountNext(t: seq<Slot>, i: int, f: File)
    requires 0 <= i < |t|
    ensures Count(t[..i + 1], f) == Count(t[..i], f) + Refers(t[i], f)
  {
    assert t[..i + 1][..i] == t[..i];
  }

  lemma {:induction false} CountPart(t: seq<Slot>, n: int, f: File)
    requires 0 <= n <= |t|
    ensures Count(t[..n], f) <= Count(t, f)
    decreases |t| - n
  {
    if n < |t| {
      CountNext(t, n, f);
      CountPart(t, n + 1, f);
    } else {
      assert t[..n] == t;
    }
  }

  class Posix {
    var fds: seq<seq<Slot>>          // the descriptor table of each process
    ghost var holders: multiset<File> // references taken by calls in progress
    ghost var files: set<File>

    constructor ()
      ensures Valid() && fds == [] && files == {}
    {
      fds, holders, files := [], multiset{}, {};
    }

    /** The count is right, give or take extra, and the backing object is open as long as anything refers to it. */
    ghost predicate Ok(f: File, extra: int)
      reads this, f
    {
      && f.refs == Sum(fds, f) + holders[f] + extra
      && f.closes == if f.refs > 0 then 0 else 1
    }

    ghost predicate Known()
      reads this
    {
      && (forall k, i | 0 <= k < |fds| && 0 <= i < |fds[k]| && fds[k][i].Open? :: fds[k][i].file in files)
      && (forall f | f in holders :: f in files)
    }

    ghost predicate Valid()
      reads this, files
    {
      Known() && forall f {:trigger Ok(f, 0)} | f in files :: Ok(f, 0)
    }

    /** posix_fileDeref. */
    method Deref(f: File)
      modifies f
      ensures f.refs == old(f.refs) - 1 && f.closes == if f.refs == 0 then old(f.closes) + 1 else old(f.closes)
    {
      f.refs := f.refs - 1;
      if f.refs == 0 {
        f.closes := f.closes + 1;
      }
    }

    /** posix_getOpenFile: a reference for the duration of a call. */
    method Get(k: nat, fd: int) returns (err: int, f: File?)
      requires Valid() && k < |fds|
      modifies this`holders, files`refs
      ensures Valid() && (err == 0 <==> 0 <= fd < |fds[k]| && fds[k][fd].Open?) && fds == old(fds)
      ensures files == old(files)
      ensures err == 0 ==> f == fds[k][fd].file && holders == old(holders) + multiset{f}
      ensures err != 0 ==> f == null && err == EBADF && holders == old(holders)
    {
      if fd < 0 || fd >= |fds[k]| || fds[k][fd].Free? {
        return EBADF, null;
      }
      f := fds[k][fd].file;
      assert Ok(f, 0);
      CountSeen(fds[k], fd, f);
      SumSeen(fds, k, f);
      f.refs := f.refs + 1;
      holders := holders + multiset{f};
      forall g | g in files ensures Ok(g, 0) {
        assert old(Ok(g, 0));
      }
      err := 0;
    }

    /** The end of such a call. */
    method Release(f: File)
      requires Valid() && f in holders
      modifies this`holders, f
      ensures Valid() && holders == old(holders) - multiset{f} && fds == old(fds) && files == old(files)
    {
      assert Ok(f, 0);
      Deref(f);
      holders := holders - multiset{f};
      forall g | g in files ensures Ok(g, 0) {
        assert old(Ok(g, 0));
      }
    }

    /** posix_close. */
    method Close(k: nat, fd: int) returns (err: int)
      requires Valid() && k < |fds|
      modifies this`fds, files
      ensures Valid() && (err == 0 <==> 0 <= fd < |old(fds)[k]| && old(fds)[k][fd].Open?) && files == old(files)
      ensures holders == old(holders)
      ensures err == 0 ==>
        fds == old(fds)[k := old(fds)[k][fd := Free]] && old(fds)[k][fd].file.refs == old(fds[k][fd].file.refs) - 1
      ensures err != 0 ==> err == EBADF && fds == old(fds)
    {
      if fd < 0 || fd >= |fds[k]| || fds[k][fd].Free? {
        return EBADF;
      }
      var f := fds[k][fd].file;
      assert Ok(f, 0);
      CountSeen(fds[k], fd, f);
      SumSeen(fds, k, f);
      fds := fds[k := fds[k][fd := Free]];
      Deref(f);
      forall g | g in files ensures Ok(g, 0) {
        assert old(Ok(g, 0));
        CountSet(old(fds)[k], fd, Free, g);
        SumSet(old(fds), k, fds[k], g);
      }
      err := 0;
    }

    /** The search of posix_dup and posix_newFile: the lowest free descriptor from fd on, or one past the table. */
    method Lowest(k: nat, from: nat) returns (fd: nat)
      requires k < |fds| && from <= |fds[k]|
      ensures from <= fd <= |fds[k]| && (fd < |fds[k]| ==> fds[k][fd].Free?)
      ensures forall i | from <= i < fd :: fds[k][i].Open?
    {
      fd := from;
      while fd < |fds[k]| && fds[k][fd].Open?
        invariant from <= fd <= |fds[k]| && forall i | from <= i < fd :: fds[k][i].Open?
      {
        fd := fd + 1;
      }
    }

    /** A free descriptor is made to refer to f, which was counted beforehand. */
    method Install(k: nat, fd: nat, f: File, cloexec: bool)
      requires Known() && k < |fds| && fd < |fds[k]| && fds[k][fd].Free? && f in files
      requires forall g {:trigger Ok(g, 0)} {:trigger Ok(g, 1)} | g in files :: Ok(g, if g == f then 1 else 0)
      modifies this`fds
      ensures Valid() && fds == old(fds)[k := old(fds)[k][fd := Open(f, cloexec)]] && files == old(files)
      ensures holders == old(holders)
    {
      fds := fds[k := fds[k][fd := Open(f, cloexec)]];
      forall g | g in files ensures Ok(g, 0) {
        assert old(Ok(g, if g == f then 1 else 0));
        CountSet(old(fds)[k], fd, Open(f, cloexec), g);
        SumSet(old(fds), k, fds[k], g);
      }
    }

    /** posix_newFile: the lowest free descriptor from fd0 on. */
    method NewFile(k: nat, fd0: nat) returns (fd: int, f: File?)
      requires Valid() && k < |fds| && fd0 <= |fds[k]|
      modifies this`fds, this`files
      ensures Valid() && holders == old(holders)
      ensures fd < 0 ==> fd == ENFILE && fds == old(fds) && forall i | fd0 <= i < |fds[k]| :: fds[k][i].Open?
      ensures fd >= 0 ==>
        fd0 <= fd < |old(fds)[k]| && old(fds)[k][fd].Free? && forall i | fd0 <= i < fd :: old(fds)[k][i].Open?
      ensures fd >= 0 ==> f != null && fresh(f) && fds == old(fds)[k := old(fds)[k][fd := Open(f, false)]]
    {
      var n := Lowest(k, fd0);
      if n == |fds[k]| {
        return ENFILE, null;
      }
      f := OpenAt(k, n);
      fd := n;
    }

    /** A new file at a free descriptor. */
    method OpenAt(k: nat, fd: nat) returns (f: File)
      requires Valid() && k < |fds| && fd < |fds[k]| && fds[k][fd].Free?
      modifies this`fds, this`files
      ensures Valid() && holders == old(holders) && fresh(f) && files == old(files) + {f} && f.refs == 1
      ensures fds == old(fds)[k := old(fds)[k][fd := Open(f, false)]]
    {
      f := new File();
      NoSlots(fds, f);
      files := files + {f};
      forall g | g in files ensures Ok(g, if g == f then 1 else 0) {
        if g != f { assert old(Ok(g, 0)); }
      }
      Install(k, fd, f, false);
    }

    /** posix_clone without a parent: a table with three new files at the standard descriptors and no other. */
    method Start()
      requires Valid()
      modifies this`fds, this`files
      ensures Valid() && holders == old(holders) && |fds| == |old(fds)| + 1 && fds[..|old(fds)|] == old(fds)
      ensures fresh(files - old(files))
      ensures var t := fds[|old(fds)|];
        && |t| == MAX_FD_COUNT
        && (forall i | 0 <= i < 3 :: t[i].Open? && !t[i].cloexec && fresh(t[i].file) && t[i].file.refs == 1)
        && (forall i | 3 <= i < |t| :: t[i].Free?)
        && (forall i, j | 0 <= i < j < 3 :: t[i].file != t[j].file)
    {
      var k, empty := |fds|, seq(MAX_FD_COUNT, i => Free);
      fds := fds + [empty];
      forall g | g in files ensures Ok(g, 0) {
        assert old(Ok(g, 0));
        NoCount(empty, g);
        assert fds[..k] == old(fds);
      }
      for i := 0 to 3
        invariant Valid() && holders == old(holders) && |fds| == k + 1 && fds[..k] == old(fds)
        invariant |fds[k]| == MAX_FD_COUNT
        invariant files >= old(files) && fresh(files - old(files))
        invariant forall j | 0 <= j < i :: fds[k][j].Open? && !fds[k][j].cloexec && fds[k][j].file in files - old(files)
        invariant forall j | 0 <= j < i :: fds[k][j].file.refs == 1
        invariant forall j | i <= j < MAX_FD_COUNT :: fds[k][j].Free?
        invariant forall j, l | 0 <= j < l < i :: fds[k][j].file != fds[k][l].file
      {
        var f := OpenAt(k, i);
      }
    }

    /** posix_fcntlSetFd: the close-on-exec flag of an open descriptor. */
    method SetCloexec(k: nat, fd: int, cloexec: bool) returns (err: int)
      requires Valid() && k < |fds|
      modifies this`fds
      ensures Valid() && (err == 0 <==> 0 <= fd < |old(fds)[k]| && old(fds)[k][fd].Open?)
      ensures err == 0 ==> fds == old(fds)[k := old(fds)[k][fd := Open(old(fds)[k][fd].file, cloexec)]]
      ensures err != 0 ==> err == EBADF && fds == old(fds)
    {
      if fd < 0 || fd >= |fds[k]| || fds[k][fd].Free? {
        return EBADF;
      }
      var s := Open(fds[k][fd].file, cloexec);
      fds := fds[k := fds[k][fd := s]];
      forall g | g in files ensures Ok(g, 0) {
        assert old(Ok(g, 0));
        CountSet(old(fds)[k], fd, s, g);
        SumSet(old(fds), k, fds[k], g);
      }
      err := 0;
    }

    /** posix_dup: the lowest free descriptor refers to the same file. */
    method Dup(k: nat, fd: int) returns (r: int)
      requires Valid() && k < |fds|
      modifies this`fds, files`refs
      ensures Valid() && files == old(files) && holders == old(holders)
      ensures r < 0 ==>
        r == EBADF && fds == old(fds) && (!(0 <= fd < |fds[k]|) || fds[k][fd].Free? || forall i | 0 <= i < |fds[k]| ::
        fds[k][i].Open?)
      ensures r >= 0 ==> 0 <= fd < |old(fds)[k]| && old(fds)[k][fd].Open? && r < |old(fds)[k]|
      ensures r >= 0 ==> old(fds)[k][r].Free? && forall i | 0 <= i < r :: old(fds)[k][i].Open?
      ensures r >= 0 ==> fds == old(fds)[k := old(fds)[k][r := Open(old(fds)[k][fd].file, false)]]
    {
      if fd < 0 || fd >= |fds[k]| || fds[k][fd].Free? {
        return EBADF;
      }
      var f := fds[k][fd].file;
      var n := Lowest(k, 0);
      if n == |fds[k]| {
        return EBADF;
      }
      Raise(k, fd, f);
      Install(k, n, f, false);
      r := n;
    }

    /** One more reference to a file that descriptor fd refers to. */
    method Raise(k: nat, fd: nat, f: File)
      requires Valid() && k < |fds| && fd < |fds[k]| && fds[k][fd].Open? && fds[k][fd].file == f
      modifies f`refs
      ensures forall g {:trigger Ok(g, 0)} {:trigger Ok(g, 1)} | g in files :: Ok(g, if g == f then 1 else 0)
      ensures f in files && f.refs == old(f.refs) + 1
    {
      assert Ok(f, 0);
      CountSeen(fds[k], fd, f);
      SumSeen(fds, k, f);
      f.refs := f.refs + 1;
      forall g | g in files ensures Ok(g, if g == f then 1 else 0) {
        assert old(Ok(g, 0));
      }
    }

    /**
     _posix_dup2.  With equal descriptors it closes the file it goes on to use if nothing else refers to it;
     otherwise everything is in order.
     */
    method Dup2(k: nat, fd: int, fd2: int) returns (r: int)
      requires Valid() && k < |fds|
      modifies this`fds, files
      ensures files == old(files) && holders == old(holders)
      ensures r == if 0 <= fd < |old(fds)[k]| && 0 <= fd2 < |old(fds)[k]| && old(fds)[k][fd].Open? then fd2 else EBADF
      ensures r == EBADF ==> Valid() && fds == old(fds)
      ensures r != EBADF ==> fds == old(fds)[k := old(fds)[k][fd2 := Open(old(fds)[k][fd].file, false)]]
      ensures r != EBADF ==> (Valid() <==> fd != fd2 || old(fds[k][fd].file.refs) > 1)
      ensures r != EBADF && !Valid() ==> fds[k][fd].file.closes == 1
    {
      if fd < 0 || fd >= |fds[k]| || fd2 < 0 || fd2 >= |fds[k]| || fds[k][fd].Free? {
        return EBADF;
      }
      var f := fds[k][fd].file;
      InUse(k, fd, f);
      if fds[k][fd2].Open? {
        var err := Close(k, fd2);
      }
      if fd != fd2 { InUse(k, fd, f); }
      assert f in files && Ok(f, 0);
      assert fds[k][fd2 := Open(f, false)] == old(fds)[k][fd2 := Open(f, false)];
      assert fds[k := fds[k][fd2 := Open(f, false)]] == old(fds)[k := old(fds)[k][fd2 := Open(f, false)]];
      Take(k, fd2, f);
      r := fd2;
    }

    /** A file is referred to once more, whether it still exists or not. */
    method Take(k: nat, fd: nat, f: File)
      requires Valid() && k < |fds| && fd < |fds[k]| && fds[k][fd].Free? && f in files && Ok(f, 0)
      modifies this`fds, f`refs
      ensures fds == old(fds)[k := old(fds)[k][fd := Open(f, false)]] && (Valid() <==> old(f.refs) > 0)
    {
      ghost var gone := f.refs == 0;
      f.refs := f.refs + 1;
      fds := fds[k := fds[k][fd := Open(f, false)]];
      forall g | g in files && !(gone && g == f) ensures Ok(g, 0) {
        assert old(Ok(g, 0));
        CountSet(old(fds)[k], fd, Open(f, false), g);
        SumSet(old(fds), k, fds[k], g);
      }
      if gone { assert !Ok(f, 0); }
    }

    lemma InUse(k: nat, fd: nat, f: File)
      requires Valid() && k < |fds| && fd < |fds[k]| && fds[k][fd].Open? && fds[k][fd].file == f
      ensures f in files && f.refs > 0
    {
      assert Ok(f, 0);
      CountSeen(fds[k], fd, f);
      SumSeen(fds, k, f);
    }

    /**
     posix_clone of process k: a new table like that of the parent, and one more reference for each of its
     open descriptors.
     */
    method Clone(k: nat)
      requires Valid() && k < |fds|
      modifies this`fds, files`refs
      ensures Valid() && fds == old(fds) + [old(fds)[k]] && files == old(files) && holders == old(holders)
    {
      var t := fds[k];
      for i := 0 to |t|
        invariant fds == old(fds) && files == old(files) && holders == old(holders)
        invariant forall f {:trigger Ok(f, Count(t[..i], f))} | f in files :: Ok(f, Count(t[..i], f))
      {
        label L:
        if t[i].Open? {
          var f := t[i].file;
          CountSeen(t, i, f);
          SumSeen(fds, k, f);
          assert Ok(f, Count(t[..i], f));
          f.refs := f.refs + 1;
        }
        forall g | g in files ensures Ok(g, Count(t[..i + 1], g)) {
          assert old@L(Ok(g, Count(t[..i], g)));
          CountNext(t, i, g);
        }
      }
      label M:
      assert t[..|t|] == t;
      fds := fds + [t];
      forall g | g in files ensures Ok(g, 0) {
        assert old@M(Ok(g, Count(t[..|t|], g)));
        assert fds[..|fds| - 1] == old(fds);
      }
    }

    /** posix_exit of process k: its descriptors are given up one by one, and its table is gone. */
    method Exit(k: nat)
      requires Valid() && k < |fds|
      modifies this`fds, files
      ensures Valid() && fds == old(fds)[k := []] && files == old(files) && holders == old(holders)
    {
      var t := fds[k];
      for i := 0 to |t|
        invariant fds == old(fds) && files == old(files) && holders == old(holders)
        invariant forall f {:trigger Ok(f, -Count(t[..i], f))} | f in files :: Ok(f, -Count(t[..i], f))
      {
        label L:
        if t[i].Open? {
          var f := t[i].file;
          CountNext(t, i, f);
          CountPart(t, i + 1, f);
          SumSeen(fds, k, f);
          assert Ok(f, -Count(t[..i], f));
          Deref(f);
        }
        forall g | g in files ensures Ok(g, -Count(t[..i + 1], g)) {
          assert old@L(Ok(g, -Count(t[..i], g)));
          CountNext(t, i, g);
        }
      }
      label M:
      assert t[..|t|] == t;
      fds := fds[k := []];
      forall g | g in files ensures Ok(g, 0) {
        assert old@M(Ok(g, -Count(t[..|t|], g)));
        SumSet(old(fds), k, [], g);
      }
    }

    /** posix_exec of process k: exactly the descriptors marked close-on-exec are closed. */
    method Exec(k: nat)
      requires Valid() && k < |fds|
      modifies this`fds, files
      ensures Valid() && |fds| == |old(fds)| && files == old(files) && holders == old(holders)
      ensures forall j | 0 <= j < |fds| && j != k :: fds[j] == old(fds)[j]
      ensures |fds[k]| == |old(fds)[k]|
      ensures forall i | 0 <= i < |fds[k]| :: fds[k][i] == var s := old(fds)[k][i];
        if s.Open? && s.cloexec then Free else s
    {
      for i := 0 to |fds[k]|
        invariant Valid() && |fds| == |old(fds)| && files == old(files) && holders == old(holders)
        invariant |fds[k]| == |old(fds)[k]|
        invariant forall j | 0 <= j < |fds| && j != k :: fds[j] == old(fds)[j]
        invariant forall j | 0 <= j < |fds[k]| :: fds[k][j] == var s := old(fds)[k][j];
          if j < i && s.Open? && s.cloexec then Free else s
      {
        if fds[k][i].Open? && fds[k][i].cloexec {
          var err := Close(k, i);
        }
      }
    }
  }

  /** In a new process, dup2 of descriptor 0 onto itself: the file it refers to is closed. */
  method DupOntoItself() returns (s: Posix, r: int)
    ensures r == 0 && s.fds != [] && s.fds[0] != [] && s.fds[0][0].Open? && s.fds[0][0].file.closes == 1 && !s.Valid()
  {
    s := new Posix();
    s.Start();
    r := s.Dup2(0, 0, 0);
  }

  lemma {:induction false} NoSlots(ts: seq<seq<Slot>>, f: File)
    requires forall k, i | 0 <= k < |ts| && 0 <= i < |ts[k]| && ts[k][i].Open? :: ts[k][i].file != f
    ensures Sum(ts, f) == 0
    decreases |ts|
  {
    if ts != [] {
      NoSlots(ts[..|ts| - 1], f);
      NoCount(ts[|ts| - 1], f);
    }
  }

  lemma {:induction false} NoCount(t: seq<Slot>, f: File)
    requires forall i | 0 <= i < |t| && t[i].Open? :: t[i].file != f
    ensures Count(t, f) == 0
  {
    if t != [] { NoCount(t[..|t| - 1], f); }
  }
}
