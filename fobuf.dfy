/** Write-behind output buffer in front of a file descriptor (fobuf.c).
    The buffer `buf` holds buf_sz bytes; `ptr` is how many are filled and
    `bufLen` how many are free, so ptr + bufLen == buf_sz always.
    The descriptor side is the ghost stream `Sent`: every byte handed to
    fd_write, in order. fd_write itself (os layer) is not part of this
    model: what the descriptor does with a write is the buffer's `dev`,
    which the environment sets; fsync and close report their outcome
    through parameters, and malloc's through an argument of New. */
module Fobuf {
  import opened Bytes

  const DEFAULT_BUFSZ: nat := 4096

  /** How the descriptor answers fd_write: whether a write succeeds, and
      how many leading bytes a failing one still gets through. */
  datatype Device = Device(writeOk: bool, partial: nat)

  /** How fobuf_close / fobuf_newfd turn the three outcomes into a status
      once the descriptor is not -1: success needs a successful flush, an
      fsync that either worked or failed with EROFS/EINVAL (syncErr false),
      and a close returning 0. */
  function CloseStatus(flushOk: bool, syncErr: bool, closeRet: int): bool
  {
    flushOk && !syncErr && closeRet == 0
  }

  /** The status as the source computes it: it tests `!close(fd)`, so a
      close that returns 0 (success) clears the status. */
  function CloseStatusAsWritten(flushOk: bool, syncErr: bool, closeRet: int): bool
  {
    var ret := flushOk && !syncErr;
    if closeRet == 0 then false else ret
  }

  /** A close that succeeds, after a flush and fsync that succeed, is still
      reported as a failure by the code as written. */
  lemma CloseStatusAsWrittenRejectsSuccess()
    ensures !CloseStatusAsWritten(true, false, 0)
    ensures CloseStatus(true, false, 0)
  {
  }

  class Fobuf {
    var fd: int
    var buf: array<byte>
    var ptr: nat
    var bufLen: nat
    var dev: Device
    ghost var Sent: seq<byte>

    ghost predicate Valid()
      reads this
    {
      ptr + bufLen == buf.Length && buf.Length > 0
    }

    /** The bytes buffered but not yet handed to fd_write. */
    ghost function Buffered(): seq<byte>
      reads this, buf
      requires Valid()
    {
      buf[..ptr]
    }

    constructor (fd: int, bufsz: nat, dev: Device)
      ensures Valid() && fresh(buf) && this.dev == dev
      ensures this.fd == fd && buf.Length == (if bufsz == 0 then DEFAULT_BUFSZ else bufsz)
      ensures ptr == 0 && bufLen == buf.Length
      ensures Buffered() == [] && Sent == []
    {
      var sz := if bufsz == 0 then DEFAULT_BUFSZ else bufsz;
      this.fd := fd;
      this.dev := dev;
      buf := new byte[sz];
      ptr, bufLen := 0, sz;
      Sent := [];
    }

    /** fd_write: as the device answers, every byte reaches the descriptor,
        or the write fails after the device's partial prefix. */
    method FdWrite(data: seq<byte>) returns (ok: bool)
      modifies this`Sent
      ensures ok == dev.writeOk
      ensures ok ==> Sent == old(Sent) + data
      ensures !ok ==> Sent == old(Sent) + data[..Min(dev.partial, |data|)]
    {
      ok := dev.writeOk;
      if ok {
        Sent := Sent + data;
      } else {
        Sent := Sent + data[..Min(dev.partial, |data|)];
      }
    }

    /** memcpy of `data` into the buffer at the fill position. */
    method CopyIn(data: seq<byte>)
      requires Valid() && |data| <= bufLen
      modifies this`ptr, this`bufLen, buf
      ensures Valid() && Sent == old(Sent)
      ensures ptr == old(ptr) + |data| && bufLen == old(bufLen) - |data|
      ensures Buffered() == old(Buffered()) + data
    {
      var i := 0;
      while i < |data|
        invariant i <= |data| && ptr == old(ptr) && bufLen == old(bufLen)
        invariant buf[..ptr + i] == old(Buffered()) + data[..i]
      {
        buf[ptr + i] := data[i];
        i := i + 1;
      }
      ptr, bufLen := ptr + |data|, bufLen - |data|;
    }

    /** _fobuf_flush: an empty buffer succeeds without writing; otherwise
        the buffered bytes are written and, on success, the buffer empties. */
    method Flush() returns (ok: bool)
      requires Valid()
      modifies this`ptr, this`bufLen, this`Sent
      ensures Valid()
      ensures ok <==> old(ptr) == 0 || dev.writeOk
      ensures old(ptr) == 0 ==> Sent == old(Sent) && ptr == 0
      ensures ok ==> Sent + Buffered() == old(Sent + Buffered()) && ptr == 0 && bufLen == buf.Length
      ensures !ok ==> ptr == old(ptr) && bufLen == old(bufLen)
    {
      var len := buf.Length - bufLen;
      if len == 0 {
        return true;
      }
      ok := FdWrite(buf[..len]);
      if !ok {
        return false;
      }
      ptr, bufLen := 0, buf.Length;
    }

    /** fobuf_write: a write shorter than the free space only buffers;
        anything else takes the slow path. On success, the bytes handed to
        the descriptor followed by the bytes still buffered are the old ones
        followed by `data`. */
    method Write(data: seq<byte>) returns (ok: bool)
      requires Valid()
      modifies this`ptr, this`bufLen, this`Sent, buf
      ensures Valid()
      ensures ok <==> |data| < old(bufLen) || dev.writeOk
      ensures |data| < old(bufLen) ==> Sent == old(Sent) && Buffered() == old(Buffered()) + data
      ensures ok ==> Sent + Buffered() == old(Sent + Buffered()) + data
      ensures ok && !dev.writeOk ==> Sent == old(Sent)
    {
      if |data| < bufLen {
        CopyIn(data);
        return true;
      }
      ok := WriteSlow(data);
    }

    /** fobuf_write_slow: fill the buffer to capacity and flush it; then a
        remainder of at least buf_sz bytes is written directly and a
        shorter one is buffered. */
    method WriteSlow(data: seq<byte>) returns (ok: bool)
      requires Valid() && |data| >= bufLen
      modifies this`ptr, this`bufLen, this`Sent, buf
      ensures Valid() && ok == dev.writeOk
      ensures ok ==> Sent + Buffered() == old(Sent + Buffered()) + data
      ensures ok && |data| - old(bufLen) >= buf.Length ==> Buffered() == []
      ensures ok && |data| - old(bufLen) < buf.Length ==> Buffered() == data[old(bufLen)..]
    {
      var head := data[..bufLen];
      var rest := data[bufLen..];
      assert data == head + rest;
      ghost var start := Sent + Buffered();
      CopyIn(head);
      assert Sent + Buffered() == start + head;
      ok := Flush();
      if !ok {
        return false;
      }
      assert Buffered() == [];
      assert Sent == start + head;
      if |rest| >= buf.Length {
        ok := FdWrite(rest);
        if ok {
          assert Sent + Buffered() == start + head + rest;
        }
        return ok;
      }
      CopyIn(rest);
      assert Sent + Buffered() == start + head + rest;
      ok := true;
    }

    /** fobuf_close: with descriptor -1 nothing is flushed or closed and the
        result is success; otherwise flush, fsync and close are all
        attempted, and the result is success exactly when the flush went
        through (nothing was buffered, or the device accepts writes), fsync
        worked or failed with EROFS/EINVAL (syncErr false), and close
        returned 0. */
    method Close(syncErr: bool, closeRet: int) returns (ret: bool)
      requires Valid()
      modifies this`ptr, this`bufLen, this`Sent
      ensures Valid()
      ensures old(fd) == -1 ==> ret && Sent == old(Sent) && Buffered() == old(Buffered())
      ensures old(fd) != -1 ==> (ret <==> (old(ptr) == 0 || dev.writeOk) && !syncErr && closeRet == 0)
      ensures ret && old(fd) != -1 ==> Sent == old(Sent + Buffered())
    {
      if fd == -1 {
        return true;
      }
      var flushOk := Flush();
      ret := CloseStatus(flushOk, syncErr, closeRet);
    }

    /** fobuf_newfd: like close, but the buffer is kept and attached to the
        new descriptor; with descriptor -1 it is attached without a flush. */
    method NewFd(newFd: int, syncErr: bool, closeRet: int) returns (ret: bool)
      requires Valid()
      modifies this`fd, this`ptr, this`bufLen, this`Sent
      ensures Valid() && fd == newFd
      ensures old(fd) == -1 ==> ret && Sent == old(Sent) && Buffered() == old(Buffered())
      ensures old(fd) != -1 ==> (ret <==> (old(ptr) == 0 || dev.writeOk) && !syncErr && closeRet == 0)
      ensures ret && old(fd) != -1 ==> Sent == old(Sent + Buffered()) && Buffered() == []
    {
      ret := true;
      if fd != -1 {
        var flushOk := Flush();
        ret := CloseStatus(flushOk, syncErr, closeRet);
      }
      fd := newFd;
    }
  }

  /** fobuf_new: the two mallocs succeed exactly when allocOk; bufsz 0
      selects the default size, and a new buffer is empty. */
  method New(fd: int, bufsz: nat, dev: Device, allocOk: bool) returns (b: Fobuf?)
    ensures b != null <==> allocOk
    ensures b != null ==> fresh(b) && fresh(b.buf) && b.Valid() && b.fd == fd && b.dev == dev
    ensures b != null ==> b.buf.Length == (if bufsz == 0 then DEFAULT_BUFSZ else bufsz)
    ensures b != null ==> b.ptr == 0 && b.bufLen == b.buf.Length && b.Sent == []
  {
    if !allocOk {
      return null;
    }
    b := new Fobuf(fd, bufsz, dev);
  }
}
