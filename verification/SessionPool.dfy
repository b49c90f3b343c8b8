/** The pool of live sessions: a singly linked list, newest first, beside two counters. */
module SessionPool {
  import opened Wrappers
  import opened SelectorTable
  import opened Selectors

  const MAX_POOL: nat := 500

  predicate Distinct<T(==)>(s: seq<T>) {
    forall i, j :: 0 <= i < j < |s| ==> s[i] != s[j]
  }

  /** The sessions of `accepted` that are not gone, newest first. */
  function Live<T(==)>(accepted: seq<T>, gone: set<T>): seq<T> {
    if accepted == [] then []
    else
      var n := |accepted| - 1;
      (if accepted[n] in gone then [] else [accepted[n]]) + Live(accepted[..n], gone)
  }

  lemma {:induction false} LiveMembers<T>(accepted: seq<T>, gone: set<T>)
    requires Distinct(accepted)
    ensures forall x :: x in Live(accepted, gone) <==> x in accepted && x !in gone
    ensures Distinct(Live(accepted, gone))
    decreases |accepted|
  {
    if accepted != [] {
      var n := |accepted| - 1;
      LiveMembers(accepted[..n], gone);
      assert forall x :: x in accepted <==> x in accepted[..n] || x == accepted[n];
    }
  }

  /** A new session comes first. */
  lemma LiveAccept<T>(accepted: seq<T>, gone: set<T>, x: T)
    requires x !in gone
    ensures Live(accepted + [x], gone) == [x] + Live(accepted, gone)
  {
    assert (accepted + [x])[..|accepted|] == accepted;
  }

  lemma {:induction false} LiveAbsent<T>(accepted: seq<T>, gone: set<T>, x: T)
    requires x !in accepted
    ensures Live(accepted, gone + {x}) == Live(accepted, gone)
    decreases |accepted|
  {
    if accepted != [] { LiveAbsent(accepted[..|accepted| - 1], gone, x); }
  }

  function Cut<T>(s: seq<T>, k: nat): (r: seq<T>)
    requires k < |s|
    ensures |r| == |s| - 1
  {
    s[..k] + s[k + 1..]
  }

  lemma CutCons<T>(x: T, rest: seq<T>, k: nat)
    requires k <= |rest|
    ensures Cut([x] + rest, k) == if k == 0 then rest else [x] + Cut(rest, k - 1)
  {
  }

  lemma LiveUnfold<T>(accepted: seq<T>, gone: set<T>)
    requires accepted != []
    ensures var n := |accepted| - 1;
            Live(accepted, gone) == if accepted[n] in gone then Live(accepted[..n], gone) else [accepted[n]] + Live(accepted[..n], gone)
  {
  }

  lemma DistinctPrefix<T>(s: seq<T>)
    requires Distinct(s) && s != []
    ensures Distinct(s[..|s| - 1]) && s[|s| - 1] !in s[..|s| - 1]
  {
  }

  /** A session that goes is cut out; the others keep their order. */
  lemma {:induction false} LiveRemove<T>(accepted: seq<T>, gone: set<T>, k: nat)
    requires Distinct(accepted) && k < |Live(accepted, gone)|
    ensures Live(accepted, gone + {Live(accepted, gone)[k]}) == Cut(Live(accepted, gone), k)
    decreases |accepted|
  {
    var n := |accepted| - 1;
    var x, before := accepted[n], accepted[..n];
    var rest := Live(before, gone);
    var victim := Live(accepted, gone)[k];
    LiveUnfold(accepted, gone);
    LiveUnfold(accepted, gone + {victim});
    DistinctPrefix(accepted);
    hide Live, Cut, Distinct;
    if x in gone {
      LiveRemove(before, gone, k);
    } else {
      CutCons(x, rest, k);
      if k == 0 {
        LiveAbsent(before, gone, x);
      } else {
        LiveMembers(before, gone);
        assert victim == rest[k - 1];
        LiveRemove(before, gone, k - 1);
      }
    }
  }

  lemma LiveVictim<T>(accepted: seq<T>, gone: set<T>, k: nat)
    requires Distinct(accepted) && k < |Live(accepted, gone)|
    ensures var victim := Live(accepted, gone)[k];
            victim in accepted && Live(accepted, gone + {victim}) == Cut(Live(accepted, gone), k)
  {
    LiveRemove(accepted, gone, k);
    LiveMember(accepted, gone, k);
  }

  lemma {:induction false} LiveMember<T>(accepted: seq<T>, gone: set<T>, k: nat)
    requires k < |Live(accepted, gone)|
    ensures Live(accepted, gone)[k] in accepted
    decreases |accepted|
  {
    var n := |accepted| - 1;
    var rest := Live(accepted[..n], gone);
    var i := if accepted[n] in gone then k else k - 1;
    if 0 <= i {
      assert Live(accepted, gone)[k] == rest[i];
      LiveMember(accepted[..n], gone, i);
    }
  }

  class Session {
    var next: Session?
    const clientFd: int
    var originFd: int              // -1 until the session connects to its origin

    constructor (clientFd: int)
      ensures next == null && this.clientFd == clientFd && originFd == -1
    {
      next := null;
      this.clientFd, originFd := clientFd, -1;
    }
  }

  class Pool {
    var head: Session?
    var concurrent: nat
    var total: nat                  // a 64-bit counter
    ghost var live: seq<Session>
    ghost var accepted: seq<Session>
    ghost var gone: set<Session>

    /** The list is acyclic and runs through the live sessions, which are those accepted
        and not destroyed; the counters agree with it. */
    ghost predicate Valid()
      reads this, live
    {
      && Linked(live)
      && head == (if live == [] then null else live[0])
      && Distinct(accepted) && live == Live(accepted, gone) && (forall x :: x in gone ==> x in accepted)
      && concurrent == |live| <= MAX_POOL
      && |live| <= |accepted| && total == |accepted| % WORD
    }

    ghost predicate Linked(s: seq<Session>)
      reads s
    {
      && Distinct(s)
      && forall i {:trigger s[i].next} :: 0 <= i < |s| ==> s[i].next == if i + 1 < |s| then s[i + 1] else null
    }

    constructor ()
      ensures Valid() && live == [] && accepted == []
    {
      head := null;
      concurrent, total := 0, 0;
      live, accepted, gone := [], [], {};
    }

    /** A new client; refused when the pool is full. */
    method Accept(clientFd: int) returns (sock: Session?)
      requires Valid()
      modifies this
      ensures Valid()
      ensures sock == null <==> |old(live)| == MAX_POOL == 500
      ensures sock == null ==> live == old(live) && accepted == old(accepted)
      ensures sock != null ==> fresh(sock) && live == [sock] + old(live) && accepted == old(accepted) + [sock]
      ensures gone == old(gone)
      ensures sock != null ==> sock.clientFd == clientFd && sock.originFd == -1
    {
      hide Live;
      if concurrent == MAX_POOL {
        return null;
      }
      var made := new Session(clientFd);
      LiveMembers(accepted, gone);
      LiveAccept(accepted, gone, made);
      if head == null {
        head := made;
        made.next := null;
      } else {
        made.next := head;
        head := made;
      }
      live := [made] + live;
      accepted := accepted + [made];
      concurrent := concurrent + 1;
      total := (total + 1) % WORD;
      sock := made;
    }

    /** Unlinks `sock`. */
    method RemoveSock(sock: Session, ghost k: nat)
      requires Linked(live) && head == (if live == [] then null else live[0])
      requires k < |live| && live[k] == sock
      modifies this`head, this`live, live
      ensures live == Cut(old(live), k)
      ensures Linked(live) && head == (if live == [] then null else live[0])
    {
      if sock == head {
        head := sock.next;
        assert k == 0;
      } else {
        var prev := head;
        ghost var i := 0;
        while prev != null && prev.next != sock
          invariant 0 <= i < k && prev == live[i]
          decreases k - i
        {
          prev := prev.next;
          i := i + 1;
        }
        assert i == k - 1;
        prev.next := sock.next;
      }
      live := Cut(live, k);
    }

    /** The end of a session.  Both descriptors are given back to the selector; the program
        exits, without touching the pool, if one of them is not registered there. */
    method Destroy(sock: Session, sel: Selector) returns (ok: bool)
      requires Valid() && sock in live && sel.Valid() && sel.Full()
      modifies this, live, sel`maxFd, sel`masterR, sel`masterW, sel`log, sel.fds
      ensures Valid() && sel.Valid() && sel.fds == old(sel.fds)
      ensures ok <==> (sock.clientFd == -1 || sock.clientFd in old(sel.Model())) &&
                      (old(sock.originFd) == -1 || old(sock.originFd) in old(sel.Model()) - {sock.clientFd})
      ensures ok ==> sel.Model() == old(sel.Model()) - {sock.clientFd} - {old(sock.originFd)}
      ensures ok ==> exists k :: 0 <= k < |old(live)| && old(live)[k] == sock && live == Cut(old(live), k)
      ensures accepted == old(accepted) && gone == old(gone) + if ok then {sock} else {}
      ensures !ok ==> live == old(live)
    {
      ok := GiveBack(sock.clientFd, sock.originFd, sel);
      if ok {
        Forget(sock);
      }
    }

    method GiveBack(clientFd: int, originFd: int, sel: Selector) returns (ok: bool)
      requires sel.Valid() && sel.Full()
      modifies sel`maxFd, sel`masterR, sel`masterW, sel`log, sel.fds
      ensures sel.Valid() && sel.fds == old(sel.fds)
      ensures ok <==> (clientFd == -1 || clientFd in old(sel.Model())) &&
                      (originFd == -1 || originFd in old(sel.Model()) - {clientFd})
      ensures ok ==> sel.Model() == old(sel.Model()) - {clientFd} - {originFd}
    {
      ghost var t := sel.Model();
      if clientFd != -1 {
        var status := sel.Unregister(clientFd);
        if !status.Success? {
          return false;
        }
      }
      if originFd != -1 {
        var status := sel.Unregister(originFd);
        if !status.Success? {
          return false;
        }
      }
      ok := true;
    }

    /** Counts a session off and unlinks it. */
    method Forget(sock: Session)
      requires Valid() && sock in live
      modifies this, live
      ensures Valid()
      ensures exists k :: 0 <= k < |old(live)| && old(live)[k] == sock && live == Cut(old(live), k)
      ensures accepted == old(accepted) && gone == old(gone) + {sock}
    {
      hide Live, Cut;
      ghost var k :| 0 <= k < |live| && live[k] == sock;
      concurrent := concurrent - 1;
      LiveVictim(accepted, gone, k);
      RemoveSock(sock, k);
      gone := gone + {sock};
    }
  }
}
