/** The two COPY handlers, working in place on the buffers and the selector. */
module Relays {
  import opened Wrappers
  import opened Bytes
  import opened Buffers
  import opened SelectorTable
  import opened Selectors
  import M = RelayModel

  class Relay {
    const sel: Selector
    const readBuffer: Buffer    // client to origin
    const writeBuffer: Buffer   // origin to client
    const clientFd: int
    const originFd: int
    var closing: bool
    var bytes: nat              // the global counter of transferred bytes

    ghost predicate Valid()
      reads this, sel, sel.fds, readBuffer, readBuffer.data, writeBuffer, writeBuffer.data
    {
      && sel.Valid() && sel.Full()
      && readBuffer.Valid() && writeBuffer.Valid()
      && readBuffer != writeBuffer && readBuffer.data != writeBuffer.data
      && clientFd != originFd
    }

    ghost function InterestOf(fd: int): Option<Interest>
      reads sel, sel.fds
    {
      if fd in sel.Model() then Some(sel.Model()[fd].interest) else None
    }

    ghost function View(): M.Relay
      requires readBuffer.read <= readBuffer.write <= readBuffer.data.Length
      requires writeBuffer.read <= writeBuffer.write <= writeBuffer.data.Length
      reads this, sel, sel.fds, readBuffer, readBuffer.data, writeBuffer, writeBuffer.data
    {
      M.Relay(readBuffer.View(), writeBuffer.View(), InterestOf(clientFd), InterestOf(originFd), closing, bytes)
    }

    ghost function SideOf(fd: int): M.Side {
      if fd == originFd then M.Origin else M.Client
    }

    constructor (sel: Selector, readBuffer: Buffer, writeBuffer: Buffer, clientFd: int, originFd: int, bytes: nat)
      requires sel.Valid() && sel.Full() && readBuffer.Valid() && writeBuffer.Valid()
      requires readBuffer != writeBuffer && readBuffer.data != writeBuffer.data && clientFd != originFd
      ensures Valid() && !closing && this.bytes == bytes
      ensures this.sel == sel && this.readBuffer == readBuffer && this.writeBuffer == writeBuffer
      ensures this.clientFd == clientFd && this.originFd == originFd
    {
      this.sel, this.readBuffer, this.writeBuffer := sel, readBuffer, writeBuffer;
      this.clientFd, this.originFd := clientFd, originFd;
      closing, this.bytes := false, bytes;
    }

    method RemoveInterest(fd: int, change: Interest) returns (ok: bool)
      requires Valid() && (fd == clientFd || fd == originFd)
      modifies sel`masterR, sel`masterW, sel.fds
      ensures Valid()
      ensures ok <==> old(View()).InterestOf(SideOf(fd)).Some?
      ensures View() == if ok then old(View()).WithInterest(SideOf(fd), old(View()).InterestOf(SideOf(fd)).value.Off(change)) else old(View())
    {
      ghost var v := View();
      var status := sel.RemoveInterest(fd, change);
      ok := status.Success?;
    }

    method AddInterest(fd: int, change: Interest) returns (ok: bool)
      requires Valid() && (fd == clientFd || fd == originFd)
      modifies sel`masterR, sel`masterW, sel.fds
      ensures Valid()
      ensures ok <==> old(View()).InterestOf(SideOf(fd)).Some?
      ensures View() == if ok then old(View()).WithInterest(SideOf(fd), old(View()).InterestOf(SideOf(fd)).value.On(change)) else old(View())
    {
      var status := sel.AddInterest(fd, change);
      ok := status.Success?;
    }

    /** The pipe a descriptor fills takes in a chunk. */
    method Fill(fd: int, chunk: seq<byte>) returns (full: bool)
      requires Valid() && (fd == clientFd || fd == originFd)
      requires |chunk| <= View().From(SideOf(fd)).Room()
      modifies this, readBuffer, readBuffer.data, writeBuffer, writeBuffer.data
      ensures Valid()
      ensures View() == old(View()).WithFrom(SideOf(fd), old(View()).From(SideOf(fd)).Put(chunk)).(bytes := (old(bytes) + |chunk|) % WORD)
      ensures full <==> View().From(SideOf(fd)).Room() <= 0
    {
      hide Selector.Valid, Selector.Model;
      var buff := if fd == originFd then writeBuffer else readBuffer;
      buff.Receive(chunk);
      bytes := (bytes + |chunk|) % WORD;
      var room := buff.CanWrite();
      full := !room;
    }

    /** The pipe towards the origin gives up its first `n` bytes. */
    method TakeUp(n: nat) returns (emptied: bool)
      requires Valid() && n <= |View().up.pending|
      modifies readBuffer, readBuffer.data
      ensures Valid() && View() == old(View()).(up := old(View()).up.Take(n))
      ensures emptied <==> View().up.pending == []
    {
      hide Selector.Valid, Selector.Model, Pipe.Take;
      readBuffer.ReadAdv(n);
      var more := readBuffer.CanRead();
      emptied := !more;
    }

    method TakeDown(n: nat) returns (emptied: bool)
      requires Valid() && n <= |View().down.pending|
      modifies writeBuffer, writeBuffer.data
      ensures Valid() && View() == old(View()).(down := old(View()).down.Take(n))
      ensures emptied <==> View().down.pending == []
    {
      hide Selector.Valid, Selector.Model, Pipe.Take;
      writeBuffer.ReadAdv(n);
      var more := writeBuffer.CanRead();
      emptied := !more;
    }

    method AfterRecv(fd: int, full: bool, broken: bool) returns (verdict: M.Verdict)
      requires Valid() && (fd == clientFd || fd == originFd)
      requires full <==> View().From(SideOf(fd)).Room() <= 0
      modifies sel`masterR, sel`masterW, sel.fds
      ensures Valid()
      ensures (verdict, View()) == M.AfterRecv(old(View()), SideOf(fd), broken)
    {
      hide Selector.Valid, Selector.Model;
      if full {
        var ok := RemoveInterest(fd, READ);
        if !ok {
          return M.Error;
        }
      }
      var ok := AddInterest(if fd == clientFd then originFd else clientFd, WRITE);
      if !ok {
        return M.Error;
      }
      verdict := if broken then M.Error else M.Copy;
    }

    method GotEnd(fd: int, recv: M.Recv, broken: bool) returns (verdict: M.Verdict)
      requires Valid() && (fd == clientFd || fd == originFd) && (recv.Eof? || recv.Reset?)
      modifies this, sel`masterR, sel`masterW, sel.fds
      ensures Valid()
      ensures (verdict, View()) == M.CopyRead(old(View()), SideOf(fd), recv, broken)
    {
      hide Selector.Valid, Selector.Model;
      var buff := if fd == originFd then writeBuffer else readBuffer;
      var ok := RemoveInterest(fd, READ);
      if !ok {
        return M.Error;
      }
      var more := buff.CanRead();
      if !more {
        return M.Close;
      }
      closing := true;
      verdict := if broken then M.Error else M.Copy;
    }

    /** `recv` is what the kernel answers to a receive into the free room. */
    method CopyRead(fd: int, recv: M.Recv, broken: bool) returns (verdict: M.Verdict)
      requires Valid()
      requires recv.Got? && (fd == clientFd || fd == originFd) ==>
                 0 < |recv.chunk| <= View().From(SideOf(fd)).Room()
      modifies this, sel`masterR, sel`masterW, sel.fds, readBuffer, readBuffer.data, writeBuffer, writeBuffer.data
      ensures Valid()
      ensures fd != clientFd && fd != originFd ==> verdict == M.Error && View() == old(View())
      ensures fd == clientFd || fd == originFd ==>
                (verdict, View()) == M.CopyRead(old(View()), SideOf(fd), recv, broken)
    {
      if fd != originFd && fd != clientFd {
        return M.Error;
      }
      match recv {
        case Got(chunk) =>
          var full := Fill(fd, chunk);
          verdict := AfterRecv(fd, full, broken);
        case RecvFailed => verdict := M.Error;
        case _ => verdict := GotEnd(fd, recv, broken);
      }
    }

    /** `send` is what the kernel answers to a send of everything pending. */
    method CopyWrite(fd: int, send: M.Send, broken: bool) returns (verdict: M.Verdict)
      requires Valid()
      requires send.Sent? && (fd == clientFd || fd == originFd) ==> send.n <= |View().To(SideOf(fd)).pending|
      modifies this, sel`masterR, sel`masterW, sel.fds, readBuffer, readBuffer.data, writeBuffer, writeBuffer.data
      ensures Valid()
      ensures fd != clientFd && fd != originFd ==> verdict == M.Error && View() == old(View())
      ensures fd == clientFd || fd == originFd ==>
                (verdict, View()) == M.CopyWrite(old(View()), SideOf(fd), send, broken)
    {
      if fd != originFd && fd != clientFd {
        return M.Error;
      }
      if send.SendFailed? || send.n == 0 {
        return M.Error;
      }
      var emptied;
      if fd == originFd {
        emptied := TakeUp(send.n);
      } else {
        emptied := TakeDown(send.n);
      }
      verdict := AfterSend(fd, emptied, broken);
    }

    method AfterSend(fd: int, emptied: bool, broken: bool) returns (verdict: M.Verdict)
      requires Valid() && (fd == clientFd || fd == originFd)
      requires emptied <==> View().To(SideOf(fd)).pending == []
      modifies sel`masterR, sel`masterW, sel.fds
      ensures Valid()
      ensures (verdict, View()) == M.AfterSend(old(View()), SideOf(fd), broken)
    {
      hide Selector.Valid, Selector.Model;
      if emptied {
        var ok := RemoveInterest(fd, WRITE);
        if !ok {
          return M.Error;
        }
        if closing {
          return M.Close;
        }
      }
      if !closing {
        var ok := AddInterest(if fd == clientFd then originFd else clientFd, READ);
        if !ok {
          return M.Error;
        }
      }
      if closing {
        return M.Close;
      }
      verdict := if broken then M.Error else M.Copy;
    }
  }
}
