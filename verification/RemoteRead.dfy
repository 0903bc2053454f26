/** Reading a remote file: the request, the server's answer and the client loops, over the framed
    serial line. */
module RemoteRead {
  import opened Basics
  import opened Frames
  import Framer

  const MAX_READ: nat := 64
  const OK: Byte := 0
  const KO: Byte := 255

  /** The open files of the server, by node. */
  type Files = map<nat, seq<Byte>>

  /** The n bytes of f from off on, with zeros past its end. */
  function Padded(f: seq<Byte>, off: nat, n: nat): (b: seq<Byte>)
    ensures |b| == n
  {
    seq(n, i requires 0 <= i < n => if off + i < |f| then f[off + i] else 0)
  }

  lemma PaddedJoins(f: seq<Byte>, off: nat, a: nat, b: nat)
    ensures Padded(f, off, a) + Padded(f, off + a, b) == Padded(f, off, a + b)
  {
  }

  lemma PaddedInside(f: seq<Byte>, off: nat, n: nat)
    requires off + n <= |f|
    ensures Padded(f, off, n) == f[off..off + n]
  {
  }

  function Zeros(n: nat): (z: seq<Byte>)
    ensures |z| == n
  {
    seq(n, i => 0)
  }

  /** Nothing of the file is left, or nothing more is asked for: zeros fill the rest. */
  lemma PaddedEnds(f: seq<Byte>, off: nat, i: nat, n: nat)
    requires i <= n <= 64 && (off + i >= |f| || i == n)
    ensures Padded(f, off, i) + Zeros(64 - i)[..n - i] == Padded(f, off, n)
  {
  }

  /** The read command for len bytes of a node from at on. */
  function Request(len: Byte, node: nat, at: nat): (p: seq<Byte>)
    ensures |p| == 10
  {
    ['R' as int, len] + Bytes(node) + Bytes(at)
  }

  /** The server's answer to a read command. */
  function Answer(files: Files, cmd: seq<Byte>): (p: seq<Byte>)
    requires |cmd| >= 10
    ensures 2 <= |p| <= 66
  {
    var node, at := Word(cmd[2..]), Word(cmd[6..]);
    if cmd[1] > MAX_READ || node !in files then ['r' as int, KO]
    else ['r' as int, OK] + Padded(files[node], at, cmd[1])
  }

  /** A request for a known file is answered with its bytes. */
  lemma RequestIsAnswered(files: Files, len: Byte, node: nat, at: nat)
    requires node in files && node < U32 && at < U32 && len <= MAX_READ
    ensures Answer(files, Request(len, node, at)) == ['r' as int, OK] + Padded(files[node], at, len)
  {
    var p := Request(len, node, at);
    SmallWord(node, Bytes(at));
    SmallWord(at, []);
    assert p[2..] == Bytes(node) + Bytes(at) && p[6..] == Bytes(at) + [] && p[1] == len;
  }

  lemma SmallWord(w: nat, rest: seq<Byte>)
    requires w < U32
    ensures Word(Bytes(w) + rest) == w
  {
    WordOfBytes(w, rest);
  }

  /** Where the parts of a good answer lie in its frame, and in its payload. */
  lemma AnswerInFrame(b: seq<Byte>, data: seq<Byte>)
    requires |data| <= MAX_READ && |b| >= |data| + 6
    requires b[..|data| + 6] == Frame(['r' as int, OK] + data)
    ensures b[1] == |data| + 2 && b[3] == OK && b[4..4 + |data|] == data
  {
    var p := ['r' as int, OK] + data;
    var f, n := Frame(p), |data| + 6;
    assert f[3] == p[1] && f[4..4 + |data|] == data;
    assert b[..n][1] == b[1] && b[..n][3] == b[3] && b[..n][4..4 + |data|] == b[4..4 + |data|];
  }

  lemma AnswerInPayload(b: seq<Byte>, data: seq<Byte>)
    requires |b| >= |data| + 2 && b[..|data| + 2] == ['r' as int, OK] + data
    ensures b[1] == OK && b[2..2 + |data|] == data
  {
    assert b[1] == b[..|data| + 2][1];
    assert b[2..2 + |data|] == b[..|data| + 2][2..];
  }

  /** The server's read handler. */
  method DoRead(files: Files, cmd: seq<Byte>) returns (wire: seq<Byte>)
    requires |cmd| >= 10
    ensures wire == Frame(Answer(files, cmd))
  {
    var aread := new Byte[66](_ => 0);
    aread[0] := 'r' as int;
    var len: nat, node, at := cmd[1], Word(cmd[2..]), Word(cmd[6..]);
    if len > MAX_READ || node !in files {
      aread[1] := KO;
      assert aread[..2] == ['r' as int, KO];
      wire := SendMsg(aread[..], 2);
      assert aread[..][..2] == aread[..2];
      return;
    }
    var f := files[node];
    var i := 0;
    while i < len && at + i < |f|
      invariant 0 <= i <= len && aread[0] == 'r' as int
      invariant aread[2..2 + i] == Padded(f, at, i) && aread[2 + i..] == Zeros(64 - i)
    {
      assert aread[2 + i..][1..] == aread[2 + i + 1..];
      aread[2 + i] := f[at + i];
      i := i + 1;
    }
    aread[1] := OK;
    PaddedEnds(f, at, i, len);
    assert aread[2..len + 2] == aread[2..2 + i] + aread[2 + i..][..len - i];
    assert aread[..len + 2] == ['r' as int, OK] + Padded(f, at, len);
    wire := SendMsg(aread[..], len + 2);
    assert aread[..][..len + 2] == aread[..len + 2];
  }

  /** The client's 14-byte read command. */
  method Command(len: Byte, node: nat, at: nat) returns (wire: seq<Byte>)
    ensures wire == Frame(Request(len, node, at))
  {
    wire := SendMsg(['R' as int, len] + Bytes(node) + Bytes(at), 10);
    assert Request(len, node, at)[..10] == Request(len, node, at);
  }

  /** The server at the far end of the line, with the files it serves. */
  class Remote {
    const files: Files
    const server: Framer.Server
    const line: Line

    constructor (files: Files)
      ensures this.files == files && Idle() && fresh(server) && fresh(server.buf) && fresh(line)
    {
      this.files := files;
      server := new Framer.Server();
      line := new Line();
    }

    /** Between two commands: the server waits for a start byte and the line is empty. */
    ghost predicate Idle()
      reads server, server.buf, line
    {
      server.Valid() && server.View() == Framer.Sof && line.rx == []
    }

    /** Write a command's frame: the server's port cuts it as it likes, and the answer comes back. */
    method Exchange(wire: seq<Byte>, ghost cmd: seq<Byte>)
      requires Idle() && 10 <= |cmd| < 256 && wire == Frame(cmd)
      modifies server, server.buf, line
      ensures server.Valid() && server.View() == Framer.Sof
      ensures line.rx == Frame(Answer(files, cmd))
    {
      var left := wire;
      var answered := false;
      Framer.FrameIsOneCommand(cmd);
      while left != []
        invariant Serving(left, answered, cmd)
        decreases |left|
      {
        left, answered := Round(left, answered, cmd);
      }
      assert answered;
    }

    /** One read of the server's loop, of as many bytes as the port likes. */
    method Round(left: seq<Byte>, answered: bool, ghost cmd: seq<Byte>) returns (rest: seq<Byte>, done: bool)
      requires 10 <= |cmd| < 256 && left != [] && Serving(left, answered, cmd)
      modifies server, server.buf, line
      ensures |rest| < |left| && Serving(rest, done, cmd)
    {
      var want := server.Asked();
      assert want == Framer.Want(server.View());
      var n: nat :| 1 <= n <= |left| && n <= want;
      assert left == left[..n] + left[n..];
      rest, done := left[n..], answered;
      var got := Feed(left[..n], rest);
      if got.Some? {
        ghost var both := [got.value] + Framer.Stream(server.View(), rest);
        assert both == (if answered then [] else [cmd]);
        assert !answered && got.value == both[0] == cmd && Framer.Stream(server.View(), rest) == both[1..] == [];
        line.rx := DoRead(files, got.value);
        done := true;
      }
    }

    /** The rest of a command's frame is on its way, or the command has been answered. */
    ghost predicate Serving(left: seq<Byte>, answered: bool, cmd: seq<Byte>)
      reads server, server.buf, line
      requires 10 <= |cmd| < 256
    {
      && server.Valid() && Framer.StreamLast(server.View(), left) == Framer.Sof
      && Framer.Stream(server.View(), left) == (if answered then [] else [cmd])
      && line.rx == (if answered then Frame(Answer(files, cmd)) else [])
    }

    /** One read of the server's loop, in front of the bytes that are still to come. */
    method Feed(r: seq<Byte>, ghost rest: seq<Byte>) returns (got: Option<seq<Byte>>)
      requires server.Valid() && 0 < |r| <= Framer.Want(server.View())
      modifies server, server.buf
      ensures server.Valid()
      ensures Framer.StreamLast(server.View(), rest) == old(Framer.StreamLast(server.View(), r + rest))
      ensures (if got.Some? then [got.value] else []) + Framer.Stream(server.View(), rest)
           == old(Framer.Stream(server.View(), r + rest))
    {
      Framer.ReadIsStream(server.View(), r);
      Framer.StreamJoins(server.View(), r, rest);
      got := server.Step(r);
    }
  }

  /** The kernel's end-of-file clamp, in its 32-bit arithmetic. */
  function Clamp(at: nat, count: nat, size: nat): nat {
    if (at + count) % U32 > size then (size - at) % U32 else count
  }

  /** The clamp leaves the bytes there are, exactly when the position is inside the file and the end
      of the request does not wrap. */
  lemma ClampRightIff(at: nat, count: nat, size: nat)
    requires at < U32 && count < U32 && size < U32
    ensures Clamp(at, count, size) == (if at >= size then 0 else if count < size - at then count else size - at)
            <==> at <= size && at + count < U32
  {
  }

  /** Copy n bytes of src, from the index from on, to dst. */
  method CopyOut(src: array<Byte>, from: nat, dst: array<Byte>, at: nat, n: nat)
    requires from + n <= src.Length && at + n <= dst.Length && src != dst
    modifies dst
    ensures dst[..at] == old(dst[..at]) && forall i :: at + n <= i < dst.Length ==> dst[i] == old(dst[i])
    ensures dst[at..at + n] == src[from..from + n]
  {
    var i := 0;
    while i < n
      invariant 0 <= i <= n
      invariant dst[..at] == old(dst[..at]) && forall i :: at + n <= i < dst.Length ==> dst[i] == old(dst[i])
      invariant dst[at..at + i] == src[from..from + i]
    {
      dst[at + i] := src[from + i];
      i := i + 1;
    }
  }

  /** The kernel's open remote file. */
  class Rnode {
    const rnode: nat
    var lseek: nat
    var fileSize: nat

    constructor (rnode: nat, fileSize: nat)
      ensures this.rnode == rnode && lseek == 0 && this.fileSize == fileSize
    {
      this.rnode := rnode;
      this.fileSize := fileSize;
      lseek := 0;
    }

    /** _rnode_read: the bytes of the file from the position on, as many as asked for or left. */
    method Read(remote: Remote, dst: array<Byte>, count0: nat) returns (done: nat)
      requires remote.Idle() && rnode in remote.files && rnode < U32
      requires |remote.files[rnode]| == fileSize < U32 && lseek <= fileSize && lseek + count0 < U32
      requires count0 <= dst.Length && dst != remote.server.buf
      modifies this`lseek, remote.server, remote.server.buf, remote.line, dst
      ensures remote.Idle()
      ensures done == if count0 < fileSize - old(lseek) then count0 else fileSize - old(lseek)
      ensures lseek == old(lseek) + done
      ensures dst[..done] == remote.files[rnode][old(lseek)..old(lseek) + done]
      ensures dst[done..] == old(dst[done..])
    {
      var count := Clamp(lseek, count0, fileSize);
      ClampRightIff(lseek, count0, fileSize);
      ghost var f, at := remote.files[rnode], lseek;
      done := 0;
      while done < count
        invariant done <= count && remote.Idle() && lseek == at + done
        invariant dst[..done] == Padded(f, at, done)
        invariant forall i :: done <= i < dst.Length ==> dst[i] == old(dst[i])
      {
        var len: nat := if count - done > 64 then 64 else count - done;
        var blen := Chunk(remote, dst, done, len);
        if blen == 0 { break; }
        PaddedJoins(f, at, done, blen);
        lseek := lseek + blen;
        done := done + blen;
      }
      PaddedInside(f, at, count);
    }

    /** One round of the loop: the number of bytes received, 0 to give up. */
    method Chunk(remote: Remote, dst: array<Byte>, done: nat, len: nat) returns (blen: nat)
      requires remote.Idle() && rnode in remote.files && rnode < U32 && lseek < U32 && 0 < len <= MAX_READ
      requires done + len <= dst.Length && dst != remote.server.buf
      modifies remote.server, remote.server.buf, remote.line, dst
      ensures remote.Idle() && blen == len
      ensures dst[..done + len] == old(dst[..done]) + Padded(remote.files[rnode], lseek, len)
      ensures forall i :: done + len <= i < dst.Length ==> dst[i] == old(dst[i])
    {
      var buf := new Byte[70](_ => 0);
      var ok := Ask(remote, lseek, len, buf);
      blen := 0;
      if ok && buf[3] != KO {
        blen := buf[1] - 2;
        CopyOut(buf, 4, dst, done, blen);
      }
      assert dst[..done + len] == dst[..done] + dst[done..done + len];
    }

    /** Ask for len bytes at a position and wait for the answer. */
    method Ask(remote: Remote, at: nat, len: nat, buf: array<Byte>) returns (ok: bool)
      requires remote.Idle() && rnode in remote.files && rnode < U32 && at < U32 && len <= MAX_READ
      requires buf.Length == 70 && buf != remote.server.buf
      modifies remote.server, remote.server.buf, remote.line, buf
      ensures ok && remote.Idle()
      ensures buf[1] == len + 2 && buf[3] == OK && buf[4..4 + len] == Padded(remote.files[rnode], at, len)
    {
      var wire := Command(len, rnode, at);
      remote.Exchange(wire, Request(len, rnode, at));
      RequestIsAnswered(remote.files, len, rnode, at);
      ghost var p := Answer(remote.files, Request(len, rnode, at));
      SentIsDelivered(p, [], 66);
      assert Frame(p) + [] == Frame(p);
      ok := remote.line.ReceiveMsg(buf);
      AnswerInFrame(buf[..], Padded(remote.files[rnode], at, len));
      assert buf[..][4..4 + len] == buf[4..4 + len];
    }
  }

  /** The bootstrap's open remote file. */
  class BootFile {
    const rnode: nat
    var lseek: nat

    constructor (rnode: nat)
      ensures this.rnode == rnode && lseek == 0
    {
      this.rnode := rnode;
      lseek := 0;
    }

    /** rfs_read: always count bytes; past the end of the file they are zeros. */
    method Read(remote: Remote, to: array<Byte>, count: nat) returns (done: nat)
      requires remote.Idle() && rnode in remote.files && rnode < U32 && lseek + count < U32
      requires count <= to.Length && to != remote.server.buf
      modifies this`lseek, remote.server, remote.server.buf, remote.line, to
      ensures remote.Idle() && done == count && lseek == old(lseek) + count
      ensures to[..count] == Padded(remote.files[rnode], old(lseek), count) && to[count..] == old(to[count..])
    {
      ghost var f, at := remote.files[rnode], lseek;
      done := 0;
      while done < count
        invariant done <= count && remote.Idle() && lseek == at + done
        invariant to[..done] == Padded(f, at, done)
        invariant forall i :: done <= i < to.Length ==> to[i] == old(to[i])
      {
        var len: nat := if count - done > MAX_READ then MAX_READ else count - done;
        var buf := new Byte[128](_ => 0);
        var n := Ask(remote, lseek, len, buf);
        if n <= 0 { break; }
        if buf[1] != OK { break; }
        var blen: nat := n - 2;
        CopyOut(buf, 2, to, done, blen);
        PaddedJoins(f, at, done, blen);
        assert to[..done + blen] == to[..done] + to[done..done + blen];
        lseek := lseek + blen;
        done := done + blen;
      }
    }

    /** Ask for len bytes at a position and wait for the answer, of any length. */
    method Ask(remote: Remote, at: nat, len: nat, buf: array<Byte>) returns (n: int)
      requires remote.Idle() && rnode in remote.files && rnode < U32 && at < U32 && len <= MAX_READ
      requires buf.Length == 128 && buf != remote.server.buf
      modifies remote.server, remote.server.buf, remote.line, buf
      ensures n == len + 2 && remote.Idle()
      ensures buf[1] == OK && buf[2..2 + len] == Padded(remote.files[rnode], at, len)
    {
      var wire := Command(len, rnode, at);
      remote.Exchange(wire, Request(len, rnode, at));
      RequestIsAnswered(remote.files, len, rnode, at);
      ghost var p := Answer(remote.files, Request(len, rnode, at));
      SentIsDelivered(p, [], MAX_PAYLOAD);
      assert Frame(p) + [] == Frame(p);
      ParsersAgree(remote.line.rx, ANY_LEN);
      var got, used := ParseMsg(remote.line.rx, buf, ANY_LEN);
      remote.line.rx := remote.line.rx[used..];
      AnswerInPayload(buf[..], Padded(remote.files[rnode], at, len));
      assert buf[..][2..2 + len] == buf[2..2 + len];
      n := if got.Payload? then |got.bytes| else -1;
    }
  }
}
