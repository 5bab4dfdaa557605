/** Sending a file over a stream that fragments as it likes: send_file on the client, p2s_recvall and
    p2s_recv_file on the device, and the request that announces the size. */
module FileTransfers {
  import opened Basics
  import opened Splitting
  import opened Decimals
  import opened Strtols
  import C = Commands

  const LONG_MAX := 0x7FFF_FFFF
  const CMD_PUT := 19
  const CMD_LOAD := 21
  const CMD_RELOAD := 22

  /** One direction of a connection: the bytes sent and not yet received. */
  class Stream {
    var incoming: seq<Byte>

    constructor ()
      ensures incoming == []
    {
      incoming := [];
    }

    method Send(data: seq<Byte>)
      modifies this
      ensures incoming == old(incoming) + data
    {
      incoming := incoming + data;
    }

    /** Delivers some of the waiting bytes, at least one and at most `max`; how many is up to the network. */
    method Recv(max: nat) returns (data: seq<Byte>)
      requires max > 0 && incoming != []
      modifies this
      ensures 1 <= |data| <= max && |data| <= |old(incoming)|
      ensures data == old(incoming)[..|data|] && incoming == old(incoming)[|data|..]
    {
      var n := Fragment(if |incoming| < max then |incoming| else max);
      data := incoming[..n];
      incoming := incoming[n..];
    }
  }

  /** Any number from 1 to `most`. */
  method Fragment(most: nat) returns (n: nat)
    requires most > 0
    ensures 1 <= n <= most
  {
    n := most;
    while n > 1
      invariant 1 <= n <= most
    {
      if * {
        break;
      }
      n := n - 1;
    }
  }

  class OutFile {
    var bytes: seq<Byte>

    constructor ()
      ensures bytes == []
    {
      bytes := [];
    }

    method Write(data: seq<Byte>)
      modifies this
      ensures bytes == old(bytes) + data
    {
      bytes := bytes + data;
    }
  }

  /** Reads the file in chunks of the library's choosing and sends each. */
  method SendFile(stream: Stream, file: seq<Byte>) returns (progress: nat)
    modifies stream
    ensures stream.incoming == old(stream.incoming) + file
    ensures progress == |file|
  {
    progress := 0;
    assert file[..0] == [];
    while progress < |file|
      invariant progress <= |file|
      invariant stream.incoming == old(stream.incoming) + file[..progress]
    {
      var left := |file| - progress;
      var len := Fragment(if left < P2S_SIZE_DATA then left else P2S_SIZE_DATA);
      stream.Send(file[progress..progress + len]);
      assert file[..progress + len] == file[..progress] + file[progress..progress + len];
      progress := progress + len;
    }
    assert file[..progress] == file;
  }

  /** p2s_recvall: receives until `size` bytes are there. */
  method RecvAll(stream: Stream, size: nat) returns (buffer: seq<Byte>)
    requires size <= |stream.incoming|
    modifies stream
    ensures buffer == old(stream.incoming)[..size]
    ensures stream.incoming == old(stream.incoming)[size..]
  {
    ghost var all := stream.incoming;
    buffer := [];
    var sizeLeft := size;
    while sizeLeft > 0
      invariant 0 <= sizeLeft && |buffer| + sizeLeft == size
      invariant buffer == all[..|buffer|] && stream.incoming == all[|buffer|..]
      decreases sizeLeft
    {
      var data := stream.Recv(sizeLeft);
      assert all[..|buffer| + |data|] == all[..|buffer|] + all[|buffer|..][..|data|];
      sizeLeft := sizeLeft - |data|;
      buffer := buffer + data;
    }
  }

  /** p2s_recv_file: the announced number of bytes goes to the file, chunk by chunk. Without memory for the
      buffer nothing is received at all. */
  method RecvFile(stream: Stream, file: OutFile, size: nat, outOfMemory: bool) returns (received: nat)
    requires size <= |stream.incoming|
    modifies stream, file
    ensures !outOfMemory ==>
              && received == size
              && file.bytes == old(file.bytes) + old(stream.incoming)[..size]
              && stream.incoming == old(stream.incoming)[size..]
    ensures outOfMemory ==> received == 0 && file.bytes == old(file.bytes) && stream.incoming == old(stream.incoming)
  {
    if outOfMemory {
      return 0;
    }
    ghost var all := stream.incoming;
    var left := size;
    var bufSize := P2S_SIZE_DATA;
    received := 0;
    while left > 0
      invariant 0 <= left && received + left == size && 0 < bufSize <= P2S_SIZE_DATA
      invariant file.bytes == old(file.bytes) + all[..received] && stream.incoming == all[received..]
      decreases left
    {
      if left < bufSize {
        bufSize := left;
      }
      var buffer := RecvAll(stream, bufSize);
      file.Write(buffer);
      assert all[..received + bufSize] == all[..received] + all[received..][..bufSize];
      left := left - bufSize;
      received := received + bufSize;
    }
  }

  /** The requests of put, load and reload. */
  function PutRequest(name: string, dst: string, size: nat): string {
    C.Short(CMD_PUT, [name, dst, Decimal(size)])
  }

  function LoadRequest(tid: string, size: nat): string {
    C.Short(CMD_LOAD, [tid, Decimal(size)])
  }

  function ReloadRequest(size: nat): string {
    C.Short(CMD_RELOAD, [Decimal(size)])
  }

  /** The size the device takes from each request: the third, second or first argument, its base told from its
      prefix. */
  function AnnouncedSize(c: C.Command): nat
    requires |c.args| == C.P2S_MAX_ARGS
  {
    Strtoul(if c.kind == CMD_PUT then c.args[2] else if c.kind == CMD_LOAD then c.args[1] else c.args[0], 0)
  }

  lemma SizeIsSendable(size: nat)
    requires size <= LONG_MAX
    ensures C.Sendable(Decimal(size)) && |Decimal(size)| <= 10
  {
    assert PowerOfTen(10) == 10_000_000_000;
    DecimalLength(size, 10);
  }

  /** Fields the record can hold survive with the size: the request fits the sender's buffer, and what is printed,
      split into arguments and parsed is what was sent. */
  lemma PutRequestSurvives(name: string, dst: string, size: nat)
    requires C.Sendable(name) && C.Sendable(dst) && size <= LONG_MAX
    ensures |PutRequest(name, dst, size)| + 1 <= C.P2S_SIZE_CMD
    ensures C.Decode(PutRequest(name, dst, size)) == Some(C.Command(CMD_PUT, [name, dst, Decimal(size)]))
    ensures AnnouncedSize(C.Command(CMD_PUT, [name, dst, Decimal(size)])) == size
  {
    hide Decimal, Strtoul;
    SizeIsSendable(size);
    StrtoulOfDecimal(size);
    C.ShortDecodes(CMD_PUT, [name, dst, Decimal(size)]);
    assert [name, dst, Decimal(size)] + seq(0, _ => "") == [name, dst, Decimal(size)];
  }

  lemma LoadRequestSurvives(tid: string, size: nat)
    requires C.Sendable(tid) && size <= LONG_MAX
    ensures |LoadRequest(tid, size)| + 1 <= C.P2S_SIZE_CMD
    ensures C.Decode(LoadRequest(tid, size)) == Some(C.Command(CMD_LOAD, [tid, Decimal(size), ""]))
    ensures AnnouncedSize(C.Command(CMD_LOAD, [tid, Decimal(size), ""])) == size
  {
    hide Decimal, Strtoul;
    SizeIsSendable(size);
    StrtoulOfDecimal(size);
    C.ShortDecodes(CMD_LOAD, [tid, Decimal(size)]);
    assert [tid, Decimal(size)] + seq(1, _ => "") == [tid, Decimal(size), ""];
  }

  /** The sender of a single number has a buffer of 32 characters. */
  lemma ReloadRequestSurvives(size: nat)
    requires size <= LONG_MAX
    ensures |ReloadRequest(size)| + 1 <= 32
    ensures C.Decode(ReloadRequest(size)) == Some(C.Command(CMD_RELOAD, [Decimal(size), "", ""]))
    ensures AnnouncedSize(C.Command(CMD_RELOAD, [Decimal(size), "", ""])) == size
  {
    hide Decimal, Strtoul;
    SizeIsSendable(size);
    StrtoulOfDecimal(size);
    C.ShortDecodes(CMD_RELOAD, [Decimal(size)]);
    assert [Decimal(size)] + seq(2, _ => "") == [Decimal(size), "", ""];
    ReloadLength(size);
  }

  lemma ReloadLength(size: nat)
    requires size <= LONG_MAX
    ensures |ReloadRequest(size)| + 1 <= 32
  {
    hide Decimal;
    SizeIsSendable(size);
    var t := [Decimal(CMD_RELOAD)] + [Decimal(size)] + [""];
    assert t[1..] == [Decimal(size), ""] && t[1..][1..] == [""];
    assert |Join([Decimal(size), ""], C.QUOTE)| == |Decimal(size)| + 1;
    C.KindPrefix(CMD_RELOAD, "");
  }

  /** A whole transfer: the file at the target is the file the client read, and the next byte the device reads is
      the first one sent after it. */
  method Transfer(stream: Stream, content: seq<Byte>, request: C.Command, after: seq<Byte>) returns (file: OutFile)
    requires stream.incoming == [] && |request.args| == C.P2S_MAX_ARGS && AnnouncedSize(request) == |content|
    modifies stream
    ensures fresh(file) && file.bytes == content
    ensures stream.incoming == after
  {
    file := new OutFile();
    var progress := SendFile(stream, content);
    stream.Send(after);
    assert stream.incoming == content + after;
    var received := RecvFile(stream, file, AnnouncedSize(request), false);
  }

  lemma PutFits(name: string, dst: string, size: nat)
    requires C.Sendable(name) && C.Sendable(dst) && size <= LONG_MAX
    ensures C.FitsRecord(PutRequest(name, dst, size))
  {
    hide Decimal, Strtol10, PutRequest, C.Arguments;
    PutRequestSurvives(name, dst, size);
    SizeIsSendable(size);
    assert C.Arguments(PutRequest(name, dst, size)) == [name, dst, Decimal(size)];
  }

  /** The put command from end to end. */
  method Put(stream: Stream, record: C.CommandRecord, name: string, dst: string, content: seq<Byte>, after: seq<Byte>)
    returns (file: OutFile)
    requires stream.incoming == [] && record.Valid()
    requires C.Sendable(name) && C.Sendable(dst) && |content| <= LONG_MAX
    modifies stream, record, record.args
    ensures fresh(file) && file.bytes == content && stream.incoming == after
    ensures record.args[..] == [name, dst, Decimal(|content|)]
  {
    hide Decimal, Strtoul, PutRequest, LoadRequest, ReloadRequest, C.Decode, AnnouncedSize;
    PutRequestSurvives(name, dst, |content|);
    PutFits(name, dst, |content|);
    var ret := record.FromBuffer(PutRequest(name, dst, |content|));
    var c := C.Command(record.kind, record.args[..]);
    file := Transfer(stream, content, c, after);
  }
}
