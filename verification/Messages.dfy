/**
 The send, receive and respond protocol of proc/msg.c on one port.  Every region under the
 port's spinlock is one method, and a run is any sequence of calls; servers answer only what
 they have received and not yet answered.
 */
module Messages {
  import opened Kernel
  import opened Lists

  datatype MsgState = Waiting | Received | Responded | Rejected

  /** A message on its sender's stack. */
  class Kmsg {
    var state: MsgState

    constructor ()
      ensures state == Waiting
    {
      state := Waiting;
    }
  }

  /** s without the elements of x. */
  ghost function Minus(s: seq<Kmsg>, x: set<Kmsg>): seq<Kmsg> {
    if s == [] then [] else Minus(s[..|s| - 1], x) + if s[|s| - 1] in x then [] else [s[|s| - 1]]
  }

  lemma {:induction false} MinusAll(s: seq<Kmsg>, x: set<Kmsg>)
    ensures forall m :: m in Minus(s, x) <==> m in s && m !in x
    ensures Distinct(s) ==> Distinct(Minus(s, x))
  {
    if s != [] {
      var r := s[..|s| - 1];
      assert s == r + [s[|s| - 1]];
      MinusAll(r, x);
    }
  }

  lemma MinusAppend(s: seq<Kmsg>, x: set<Kmsg>, m: Kmsg)
    requires m !in x
    ensures Minus(s + [m], x) == Minus(s, x) + [m]
  {
    assert (s + [m])[..|s|] == s;
  }

  lemma {:induction false} MinusMore(s: seq<Kmsg>, x: set<Kmsg>, m: Kmsg)
    requires m !in s
    ensures Minus(s + [m], x + {m}) == Minus(s, x) && Minus(s + [m], x - {m}) == Minus(s, x) + [m]
  {
    MinusOff(s, x, m);
    assert (s + [m])[..|s|] == s;
  }

  lemma {:induction false} MinusOff(s: seq<Kmsg>, x: set<Kmsg>, m: Kmsg)
    requires m !in s
    ensures Minus(s, x + {m}) == Minus(s, x) == Minus(s, x - {m})
  {
    if s != [] { MinusOff(s[..|s| - 1], x, m); }
  }

  /** A withdrawn message disappears from the order, and nothing else moves. */
  lemma {:induction false} MinusOne(s: seq<Kmsg>, x: set<Kmsg>, m: Kmsg)
    requires Distinct(s)
    ensures Minus(s, x + {m}) == Without(Minus(s, x), m)
  {
    if s != [] {
      var r, l := s[..|s| - 1], s[|s| - 1];
      MinusOne(r, x, m);
      MinusAll(r, x);
      assert Minus(r, x) + [] == Minus(r, x) && Minus(r, x + {m}) + [] == Minus(r, x + {m});
      if l !in x {
        if l == m {
          WithoutEnd(Minus(r, x), m);
          WithoutNone(Minus(r, x), m);
        } else {
          WithoutAppend(Minus(r, x), l, m);
        }
      }
    }
  }

  lemma {:induction false} WithoutNone(s: seq<Kmsg>, m: Kmsg)
    requires m !in s
    ensures Without(s, m) == s
  {
    if s != [] { WithoutNone(s[1..], m); }
  }

  lemma {:induction false} WithoutEnd(s: seq<Kmsg>, m: Kmsg)
    requires m !in s
    ensures Without(s + [m], m) == s
  {
    if s != [] {
      assert (s + [m])[1..] == s[1..] + [m];
      WithoutEnd(s[1..], m);
    }
  }

  lemma {:induction false} WithoutAppend(s: seq<Kmsg>, l: Kmsg, m: Kmsg)
    requires l != m
    ensures Without(s + [l], m) == Without(s, m) + [l]
  {
    if s != [] {
      assert (s + [l])[1..] == s[1..] + [l];
      if s[0] != m { WithoutAppend(s[1..], l, m); }
    }
  }

  lemma {:induction false} WithoutTail(a: seq<Kmsg>, b: seq<Kmsg>, m: Kmsg)
    requires m !in a
    ensures Without(a + b, m) == a + Without(b, m)
  {
    if a == [] {
      assert a + b == b;
    } else {
      assert (a + b)[1..] == a[1..] + b;
      WithoutTail(a[1..], b, m);
      assert a == [a[0]] + a[1..];
    }
  }

  lemma HeadOff(s: seq<Kmsg>, m: Kmsg)
    requires s != [] && Distinct(s) && m == s[0]
    ensures m !in s[1..] && forall x :: x in s <==> x == m || x in s[1..]
  {
    assert s == [m] + s[1..];
  }

  lemma HeadMoved(a: seq<Kmsg>, s: seq<Kmsg>, m: Kmsg)
    requires s != [] && m == s[0]
    ensures (a + [m]) + s[1..] == a + s
  {
  }

  lemma OneMore(s: seq<Kmsg>, m: Kmsg)
    ensures forall x :: x in s + [m] <==> x in s || x == m
    ensures Distinct(s) && m !in s ==> Distinct(s + [m])
  {
  }

  class Port {
    var kmessages: seq<Kmsg>
    var closed: bool

    ghost var sent: seq<Kmsg>        // put in the queue, in order
    ghost var withdrawn: set<Kmsg>   // taken back by an interrupted sender
    ghost var taken: seq<Kmsg>       // taken from the head of the queue, in order
    ghost var dropped: set<Kmsg>     // of these, rejected because the port was closed
    ghost var delivered: seq<Kmsg>   // of these, given to a server
    ghost var answered: seq<Kmsg>    // responded to or rejected
    ghost var returned: set<Kmsg>    // proc_send has returned: the message no longer exists

    constructor ()
      ensures Valid() && sent == []
    {
      kmessages, closed := [], false;
      sent, withdrawn, taken, dropped, delivered, answered, returned := [], {}, [], {}, [], [], {};
    }

    /** What is true of every message that was ever queued. */
    ghost predicate Ok(m: Kmsg)
      reads this, m
    {
      && (m.state == Waiting <==> m in kmessages || m in withdrawn)
      && (m in answered <==> m.state == Responded || m.state == Rejected)
      && (m.state == Received || m.state == Responded ==> m in delivered)
      && (m in returned ==> m in withdrawn || m in answered)
      && (m in withdrawn ==> m in returned)
    }

    ghost predicate Valid()
      reads this, sent
    {
      && Distinct(sent) && Distinct(delivered) && Distinct(answered)
      && Minus(sent, withdrawn) == taken + kmessages && delivered == Minus(taken, dropped)
      && (forall m | m in delivered :: m in taken) && (forall m | m in answered :: m in taken)
      && (forall m | m in withdrawn :: m in sent) && (forall m | m in returned :: m in sent)
      && (forall m {:trigger Ok(m)} | m in sent :: Ok(m))
    }

    /** The messages in the queue, and those taken off it, are distinct messages that were sent and not withdrawn. */
    lemma Queue()
      requires Valid()
      ensures Distinct(taken) && Distinct(kmessages)
      ensures forall m | m in taken || m in kmessages :: m in sent && m !in withdrawn
      ensures forall m | m in taken :: m !in kmessages
    {
      MinusAll(sent, withdrawn);
      var q := taken + kmessages;
      forall i, j | 0 <= i < j < |taken| ensures taken[i] != taken[j] { assert q[i] != q[j]; }
      forall i, j | 0 <= i < j < |kmessages| ensures kmessages[i] != kmessages[j]
        { assert q[|taken| + i] != q[|taken| + j]; }
      forall m | m in taken || m in kmessages ensures m in sent && m !in withdrawn { assert m in q; }
      forall i, j | 0 <= i < |taken| && 0 <= j < |kmessages| ensures taken[i] != kmessages[j]
        { assert q[i] != q[|taken| + j]; }
    }

    /**
     Messages leave the queue in the order they were sent, but for those withdrawn; each is delivered
     and answered at most once; and while a message is queued or in a server's hands its sender has not returned.
     */
    lemma Promises(m: Kmsg)
      requires Valid() && m in sent
      ensures taken <= Minus(sent, withdrawn) && delivered == Minus(taken, dropped) && Distinct(delivered)
      ensures Distinct(answered)
      ensures m in kmessages || m.state == Received ==> m !in returned
      ensures m in returned && m !in withdrawn ==> m.state == Responded || m.state == Rejected
    {
      Queue();
      assert Ok(m);
    }

    /** proc_send, up to its wait: the message is queued, unless the port is closed. */
    method Send(m: Kmsg) returns (err: int)
      requires Valid() && m !in sent && m.state == Waiting
      modifies this
      ensures Valid() && err == (if closed then EINVAL else EOK) && closed == old(closed)
      ensures kmessages == if closed then old(kmessages) else old(kmessages) + [m]
      ensures returned == old(returned) && sent == if closed then old(sent) else old(sent) + [m]
    {
      if closed {
        return EINVAL;
      }
      assert m !in kmessages && forall x | x in taken || x in kmessages :: x in sent by { Queue(); }
      MinusAppend(sent, withdrawn, m);
      kmessages := kmessages + [m];
      sent := sent + [m];
      Joined(m);
      return EOK;
    }

    twostate lemma Joined(new m: Kmsg)
      requires old(Valid()) && sent == old(sent) + [m] && kmessages == old(kmessages) + [m] && m !in old(sent)
      requires m.state == Waiting
      requires taken == old(taken) && dropped == old(dropped) && withdrawn == old(withdrawn)
      requires delivered == old(delivered) && answered == old(answered) && returned == old(returned)
      requires Minus(sent, withdrawn) == Minus(old(sent), withdrawn) + [m]
      requires forall x | x in taken || x in old(kmessages) :: x in old(sent)
      requires forall x | x in old(sent) :: unchanged(x)
      ensures Valid()
    {
      assert taken + kmessages == (taken + old(kmessages)) + [m];
      forall x | x in sent ensures Ok(x) {
        if x in old(sent) { assert old(Ok(x)); }
      }
    }

    /** The head of the queue is taken off it. */
    method TakeHead(to: MsgState) returns (m: Kmsg)
      requires Valid() && kmessages != [] && (to == Received || to == Rejected)
      modifies this, kmessages
      ensures Valid() && m == old(kmessages)[0] && kmessages == old(kmessages)[1..] && m in sent && m.state == to
      ensures closed == old(closed) && sent == old(sent) && returned == old(returned) && withdrawn == old(withdrawn)
      ensures taken == old(taken) + [m] && delivered == if to == Received then old(delivered) + [m] else old(delivered)
      ensures answered == if to == Received then old(answered) else old(answered) + [m]
      ensures forall x | x in sent && x != m :: x.state == old(x.state)
    {
      Queue();
      m := kmessages[0];
      assert Ok(m);
      MinusMore(taken, dropped, m);
      m.state := to;
      kmessages := kmessages[1..];
      taken := taken + [m];
      if to == Received {
        dropped := dropped - {m};
        delivered := delivered + [m];
      } else {
        dropped := dropped + {m};
        answered := answered + [m];
      }
      Shifted(m);
    }

    /** m went from the head of the queue to a server, or was rejected. */
    twostate lemma Shifted(new m: Kmsg)
      requires old(Valid()) && old(kmessages) != [] && m == old(kmessages)[0] && m in old(sent)
      requires (m.state == Received || m.state == Rejected)
      requires kmessages == old(kmessages)[1..] && taken == old(taken) + [m] && delivered == Minus(taken, dropped)
      requires Distinct(old(kmessages)) && m !in old(taken) && m !in old(withdrawn)
      requires sent == old(sent) && withdrawn == old(withdrawn) && returned == old(returned)
      requires delivered == (if m.state == Received then old(delivered) + [m] else old(delivered))
      requires answered == (if m.state == Received then old(answered) else old(answered) + [m])
      requires forall x | x in sent && x != m :: unchanged(x)
      ensures Valid()
    {
      HeadMoved(old(taken), old(kmessages), m);
      HeadOff(old(kmessages), m);
      OneMore(old(taken), m);
      OneMore(old(delivered), m);
      OneMore(old(answered), m);
      assert old(Ok(m));
      forall x | x in sent ensures Ok(x) {
        assert old(Ok(x));
        ShiftedOk(m, x);
      }
    }

    twostate lemma ShiftedOk(new m: Kmsg, new x: Kmsg)
      requires old(kmessages) != [] && m == old(kmessages)[0] && old(Ok(m)) && x in old(sent) && old(Ok(x))
      requires (m.state == Received || m.state == Rejected) && m !in kmessages && m !in old(withdrawn)
      requires withdrawn == old(withdrawn) && returned == old(returned) && m !in old(answered)
      requires x in old(kmessages) <==> x == m || x in kmessages
      requires x in delivered <==> x in old(delivered) || (x == m && m.state == Received)
      requires x in answered <==> x in old(answered) || (x == m && m.state == Rejected)
      requires x != m ==> unchanged(x)
      ensures Ok(x)
    {
    }

    /**
     proc_recv, when its loop looks at the port after a wait that ended with err (EOK if there was none): it
     goes on waiting, or ends with the oldest message, with a rejection, or because it was interrupted.
     */
    method Recv(err: int) returns (done: bool, r: int, m: Kmsg?)
      requires Valid() && (err == EOK || err == EINTR)
      modifies this, kmessages
      ensures Valid() && closed == old(closed) && sent == old(sent) && returned == old(returned)
      ensures !done <==> old(kmessages) == [] && !closed && err == EOK
      ensures done ==> r == if closed then EINVAL else err
      ensures m != null <==> done && r == EOK
      ensures m != null ==>
        old(kmessages) != [] && m == old(kmessages)[0] && m.state == Received && delivered == old(delivered) + [m]
      ensures m == null ==> delivered == old(delivered)
      ensures kmessages == if old(kmessages) != [] && (closed || err == EOK) then old(kmessages)[1..]
        else old(kmessages)
      ensures closed && old(kmessages) != [] ==> old(kmessages)[0].state == Rejected
    {
      m := null;
      if kmessages == [] && !closed && err != EINTR {
        return false, EOK, null;
      }
      done, r := true, err;
      if closed {
        if kmessages != [] {
          var x := TakeHead(Rejected);
        }
        r := EINVAL;
      } else if err == EOK {
        m := TakeHead(Received);
      }
    }

    /** The server that holds m answers it: proc_respond, or the end of proc_recv when the data cannot be mapped. */
    method Answer(m: Kmsg, to: MsgState)
      requires Valid() && m in sent && m.state == Received && (to == Responded || to == Rejected)
      modifies this`answered, m
      ensures Valid() && m.state == to && answered == old(answered) + [m]
    {
      assert Ok(m);
      Queue();
      m.state := to;
      answered := answered + [m];
      forall x | x in sent ensures Ok(x) {
        assert old(Ok(x));
      }
    }

    /** port_put with destroy: nothing more is accepted. */
    method Close()
      requires Valid()
      modifies this`closed
      ensures Valid() && closed
    {
      closed := true;
      forall x | x in sent ensures Ok(x) {
        assert old(Ok(x));
      }
    }

    /**
     The sender wakes up in the loop of proc_send with err: a message still queued is withdrawn on an
     error; a message in a server's hands is waited for; an answered one ends the call.
     */
    method SenderWakes(m: Kmsg, err: int) returns (done: bool, r: int)
      requires Valid() && m in sent && m !in returned
      modifies this`kmessages, this`withdrawn, this`returned
      ensures Valid() && (done <==> m in returned)
      ensures !done ==> unchanged(this) && (m.state == Received || (m.state == Waiting && err == EOK))
      ensures done ==> returned == old(returned) + {m} && m !in kmessages && m.state != Received
      ensures done ==> r == if m.state == Responded then EOK else if err != EOK then err else EINVAL
      ensures withdrawn == if m.state == Waiting && err != EOK then old(withdrawn) + {m} else old(withdrawn)
      ensures m.state == Responded ==> done
      ensures kmessages == if m.state == Waiting && err != EOK then Without(old(kmessages), m) else old(kmessages)
    {
      assert Ok(m);
      Queue();
      if err != EOK && m.state == Waiting {
        MinusOne(sent, withdrawn, m);
        WithoutTail(taken, kmessages, m);
        WithoutAll(kmessages, m);
        kmessages := Without(kmessages, m);
        withdrawn := withdrawn + {m};
        done, r := true, err;
      } else {
        done := m.state == Responded || m.state == Rejected;
        r := if m.state == Responded then EOK else if err != EOK then err else EINVAL;
      }
      if done {
        returned := returned + {m};
        forall x | x in sent ensures Ok(x) {
          assert old(Ok(x));
        }
      }
    }
  }
}
