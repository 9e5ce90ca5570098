/** The server's per-connection worker (`ClientHandler` in FTPServerGUI.java):
    it reads control lines until the client's stream ends and answers each
    one against the shared storage directory. */
module Server {
  import opened Wire
  import opened Protocol

  /** What one worker sees: the storage directory, what the client sent that
      the worker has not read yet, and everything the worker has written. */
  datatype Session = Session(dir: Directory, input: Stream, output: seq<Token>)

  /** How `run` ends: the client's stream ended (`readLine` gave null), it
      failed (`IOException`), or a short command line made `substring` throw. */
  datatype SessionEnd = Closed | Disconnected | Crashed

  /** `dir.list()`: every entry of the directory exactly once, in an order
      the file system chooses. */
  ghost predicate IsListing(names: seq<string>, dir: Directory) {
    (forall i, j :: 0 <= i < j < |names| ==> names[i] != names[j]) &&
    (forall n :: n in names <==> n in dir)
  }

  /** `sendFileList`: the list reply for some listing of the directory. */
  ghost predicate Listed(st: Session, st': Session) {
    exists names :: IsListing(names, st.dir) && st' == st.(output := st.output + ListReply(names))
  }

  /** The answer to an upload whose receive loop took k of the bytes in
      `rest` for a declared size `size`. */
  function UploadVerdict(size: int, rest: seq<Token>, k: nat): (reply: string)
    requires k <= |rest|
  {
    if ReceiveBroken(size, rest, k) then UPLOAD_ERROR
    else if k == size then UPLOAD_SUCCESS
    else UPLOAD_FAILED
  }

  /** The session after `receiveFile` created `name`, wrote the k bytes its
      loop took from `rest` into it, and answered. */
  function AfterReceive(st: Session, name: string, size: int, rest: Stream, k: nat): (st': Session)
    requires k <= RunLength(rest)
  {
    Session(st.dir[name := Payload(rest, k)], rest[k..], st.output + [Line(UploadVerdict(size, rest, k))])
  }

  /** `receiveFile(name)`: read the declared size; when that fails answer
      `UPLOAD_ERROR`; when it is negative do nothing more; otherwise run the
      receive loop and answer. */
  ghost predicate Received(st: Session, name: string, st': Session) {
    match ReadLong(st.input)
    case LongFailed(rest) => st' == st.(input := rest, output := st.output + [Line(UPLOAD_ERROR)])
    case GotLong(size, rest) =>
      if size < 0 then st' == st.(input := rest)
      else ReceivedPayload(st, name, size, rest, st')
  }

  /** The receive loop and the verdict after a declared size `size >= 0`,
      with `rest` the stream after the prefix: the count the loop took is
      what it left unread. */
  ghost predicate ReceivedPayload(st: Session, name: string, size: int, rest: Stream, st': Session) {
    |st'.input| <= |rest| &&
    var k := |rest| - |st'.input|;
    ReceivableCount(size, rest, k) && st' == AfterReceive(st, name, size, rest, k)
  }

  lemma ReceivedByLoop(st: Session, name: string, size: int, rest: Stream, k: nat, st': Session)
    requires ReadLong(st.input) == GotLong(size, rest) && size >= 0
    requires ReceivableCount(size, rest, k)
    requires k <= RunLength(rest) && st' == AfterReceive(st, name, size, rest, k)
    ensures Received(st, name, st')
  {
    assert ReceivedPayload(st, name, size, rest, st');
  }

  /** The effect of one decoded command. */
  ghost predicate Handled(st: Session, c: Command, st': Session) {
    match c
    case List => Listed(st, st')
    case Upload(name) => Received(st, name, st')
    case Download(name) => st' == st.(output := st.output + DownloadReply(st.dir, name))
    case Delete(name) => st' == st.(dir := st.dir - {name})
    case Other => st' == st
  }

  /** The next line is one `handleCommand` throws on. */
  predicate Crashes(st: Session) {
    var r := ReadLine(st.input);
    r.GotLine? && Decode(r.text).None?
  }

  /** One turn of `run`'s loop: read a line and handle it. */
  ghost predicate Step(st: Session, st': Session) {
    match ReadLine(st.input)
    case GotLine(line) =>
      var next := st.(input := st.input[1..]);
      (match Decode(line)
       case None => st' == next
       case Some(c) => Handled(next, c, st'))
    case EndOfStream => false
    case ReadFault => false
  }

  class ClientHandler {
    var dir: Directory
    var input: Stream
    var output: seq<Token>

    function Snapshot(): Session
      reads this
    {
      Session(dir, input, output)
    }

    constructor (dir: Directory, input: Stream)
      ensures Snapshot() == Session(dir, input, [])
    {
      this.dir := dir;
      this.input := input;
      this.output := [];
    }

    /** `new File(SERVER_DIR).list()`. */
    method ListDirectory() returns (names: seq<string>)
      ensures IsListing(names, dir)
    {
      names := [];
      var left := dir.Keys;
      while left != {}
        invariant left <= dir.Keys
        invariant forall i, j :: 0 <= i < j < |names| ==> names[i] != names[j]
        invariant forall n :: n in names <==> n in dir && n !in left
        decreases left
      {
        var n :| n in left;
        names := names + [n];
        left := left - {n};
      }
    }

    method SendFileList()
      modifies this
      ensures Listed(old(Snapshot()), Snapshot())
    {
      var files := ListDirectory();
      var i := 0;
      while i < |files|
        invariant i <= |files|
        invariant Snapshot() == old(Snapshot()).(output := old(output) + Lines(files[..i]))
      {
        assert files[..i + 1] == files[..i] + [files[i]];
        LinesAppend(files[..i], [files[i]]);
        output := output + [Line(files[i])];
        i := i + 1;
      }
      output := output + [Line(END_OF_LIST)];
      assert files[..i] == files;
      assert IsListing(files, old(dir)) && Snapshot() == old(Snapshot()).(output := old(output) + ListReply(files));
    }

    method ReceiveFile(name: string)
      modifies this
      ensures Received(old(Snapshot()), name, Snapshot())
      ensures |input| <= old(|input|)
    {
      ghost var before := Snapshot();
      match ReadLong(input)
      case LongFailed(rest) =>
        input := rest;
        output := output + [Line(UPLOAD_ERROR)];
        assert Snapshot() == before.(input := rest, output := before.output + [Line(UPLOAD_ERROR)]);
      case GotLong(fileSize, rest) =>
        input := rest;
        if fileSize < 0 {
          assert Snapshot() == before.(input := rest);
          return;
        }
        var receivedBytes, broken := ReceivePayload(name, fileSize);
        if broken {
          output := output + [Line(UPLOAD_ERROR)];
        } else if receivedBytes == fileSize {
          output := output + [Line(UPLOAD_SUCCESS)];
        } else {
          output := output + [Line(UPLOAD_FAILED)];
        }
        ReceivedByLoop(before, name, fileSize, rest, receivedBytes, Snapshot());
    }

    /** The loop of `receiveFile`: create the file, then copy what each read
        returns into it until `size` bytes arrived or the stream ends.
        `broken` is the `IOException` of a read that meets a fault. What
        `fileOut` has written becomes the entry's content when the loop
        ends; no step of this sequential model can observe it earlier. */
    method ReceivePayload(name: string, size: int) returns (received: nat, broken: bool)
      requires size >= 0
      modifies this
      ensures ReceivableCount(size, old(input), received)
      ensures received <= RunLength(old(input)) && input == old(input)[received..]
      ensures broken == ReceiveBroken(size, old(input), received)
      ensures dir == old(dir)[name := Payload(old(input), received)]
      ensures output == old(output)
    {
      ghost var rest := input;
      var written: seq<Byte> := [];
      received := 0;
      broken := false;
      while received < size
        invariant received <= RunLength(rest)
        invariant size == 0 ==> received == 0
        invariant input == rest[received..]
        invariant written == Payload(rest, received)
        invariant dir == old(dir) && output == old(output)
        invariant !broken
        decreases |input|
      {
        if input == [] {
          break;
        }
        if !input[0].Raw? {
          broken := true;
          break;
        }
        received, written := ReceiveChunk(rest, received, written);
      }
      RunAfter(rest, received);
      dir := dir[name := written];
    }

    /** One pass of the receive loop that finds bytes waiting: a `read`
        takes some of them and they are appended to what was written. */
    method ReceiveChunk(ghost rest: seq<Token>, received: nat, written: seq<Byte>)
      returns (received': nat, written': seq<Byte>)
      modifies this
      requires received <= RunLength(rest) && input == rest[received..]
      requires input != [] && input[0].Raw? && written == Payload(rest, received)
      ensures received < received' <= RunLength(rest) && input == rest[received'..]
      ensures written' == Payload(rest, received')
      ensures dir == old(dir) && output == old(output)
    {
      var avail := input;
      RunAfter(rest, received);
      var n := ChunkSize(RunLength(avail));
      PayloadSplit(rest, received, received + n);
      assert Payload(avail, n) == Payload(rest[received..], n);
      written' := written + Payload(avail, n);
      input := avail[n..];
      received' := received + n;
      assert input == rest[received'..];
    }

    method SendFile(name: string)
      modifies this
      ensures Snapshot() == old(Snapshot()).(output := old(output) + DownloadReply(old(dir), name))
    {
      if name !in dir {
        output := output + Raws(Encode64(-1));
        return;
      }
      var content := dir[name];
      output := output + Raws(Encode64(|content|));
      var sent := 0;
      while sent < |content|
        invariant sent <= |content|
        invariant Snapshot() == old(Snapshot()).(output := old(output) + Raws(Encode64(|content|)) + Raws(content[..sent]))
      {
        var n := ChunkSize(|content| - sent);
        assert content[..sent] + content[sent..sent + n] == content[..sent + n];
        RawsAppend(content[..sent], content[sent..sent + n]);
        output := output + Raws(content[sent..sent + n]);
        sent := sent + n;
      }
      assert content[..sent] == content;
    }

    method DeleteFile(name: string)
      modifies this
      ensures Snapshot() == old(Snapshot()).(dir := old(dir) - {name})
    {
      if name in dir {
        dir := dir - {name};
      } else {
        assert dir - {name} == dir;
      }
    }

    method HandleCommand(command: string) returns (crashed: bool)
      modifies this
      ensures crashed <==> Decode(command).None?
      ensures crashed ==> Snapshot() == old(Snapshot())
      ensures !crashed ==> Handled(old(Snapshot()), Decode(command).value, Snapshot())
      ensures |input| <= old(|input|)
    {
      crashed := false;
      match Decode(command)
      case None =>
        crashed := true;
      case Some(List) =>
        SendFileList();
      case Some(Upload(fileName)) =>
        ReceiveFile(fileName);
      case Some(Download(fileName)) =>
        SendFile(fileName);
      case Some(Delete(fileName)) =>
        DeleteFile(fileName);
      case Some(Other) =>
    }

    /** `run`: handle lines until the stream ends, fails, or a line throws.
        The ghost trace holds the session after each turn. */
    method Run() returns (end: SessionEnd, ghost trace: seq<Session>)
      modifies this
      ensures |trace| >= 1 && trace[0] == old(Snapshot()) && trace[|trace| - 1] == Snapshot()
      ensures forall i :: 0 <= i < |trace| - 1 ==> Step(trace[i], trace[i + 1])
      ensures forall i :: 0 <= i < |trace| - 2 ==> !Crashes(trace[i])
      ensures end == Crashed <==> |trace| >= 2 && Crashes(trace[|trace| - 2])
      ensures end == Closed ==> input == []
      ensures end == Disconnected ==> ReadLine(input) == ReadFault
    {
      trace := [Snapshot()];
      while true
        invariant |trace| >= 1 && trace[0] == old(Snapshot()) && trace[|trace| - 1] == Snapshot()
        invariant forall i :: 0 <= i < |trace| - 1 ==> Step(trace[i], trace[i + 1]) && !Crashes(trace[i])
        decreases |input|
      {
        ghost var st := Snapshot();
        match ReadLine(input)
        case EndOfStream =>
          end := Closed;
          return;
        case ReadFault =>
          end := Disconnected;
          return;
        case GotLine(command) =>
          input := input[1..];
          var crashed := HandleCommand(command);
          trace := trace + [Snapshot()];
          assert Step(st, Snapshot());
          if crashed {
            end := Crashed;
            return;
          }
      }
    }
  }

  /** An upload frame of exactly the declared length, followed by anything
      but more bytes: the worker stores exactly those bytes under the name,
      answers `UPLOAD_SUCCESS`, and leaves the rest of the stream unread. */
  lemma ReceiveExactFrame(st: Session, name: string, bytes: Content, rest: Stream, st': Session)
    requires st.input == Raws(Encode64(|bytes|)) + Raws(bytes) + rest
    requires rest == [] || !rest[0].Raw?
    ensures Received(st, name, st') <==>
      st' == Session(st.dir[name := bytes], rest, st.output + [Line(UPLOAD_SUCCESS)])
  {
    var body := Raws(bytes) + rest;
    assert st.input == Raws(Encode64(|bytes|)) + body;
    ReadLongOfEncode64(|bytes|, body);
    assert Received(st, name, st') <==> ReceivedPayload(st, name, |bytes|, body, st');
    ExactPayload(st, name, bytes, rest, st');
  }

  lemma ExactPayload(st: Session, name: string, bytes: Content, rest: Stream, st': Session)
    requires |Raws(bytes) + rest| <= LONG_MAX
    requires rest == [] || !rest[0].Raw?
    ensures ReceivedPayload(st, name, |bytes|, Raws(bytes) + rest, st') <==>
      st' == Session(st.dir[name := bytes], rest, st.output + [Line(UPLOAD_SUCCESS)])
  {
    var size := |bytes|;
    var body: Stream := Raws(bytes) + rest;
    ExactCount(size, bytes, rest, size);
    RunOfRaws(bytes, rest);
    assert body[size..] == rest;
    if ReceivedPayload(st, name, size, body, st') {
      ExactCount(size, bytes, rest, |body| - |st'.input|);
    }
  }

  /** What an upload with a non-negative declared size leaves behind: the
      entry under the name holds the bytes the loop took (even when fewer
      than declared, since nothing is cleaned up), no other entry changes,
      and exactly one verdict line is written: `UPLOAD_SUCCESS` iff the
      count equals the declared size, `UPLOAD_ERROR` iff the loop stopped
      short on a failure, and `UPLOAD_FAILED` otherwise (a stream that
      ended early, or a last read that overshot the size). A short count
      only happens where the bytes ran out. */
  ghost predicate Stored(st: Session, name: string, size: int, st': Session) {
    var file := if name in st'.dir then st'.dir[name] else [];
    name in st'.dir && st'.dir == st.dir[name := file] &&
    |st'.output| == |st.output| + 1 && st'.output[..|st.output|] == st.output &&
    (st'.output[|st.output|] == Line(UPLOAD_SUCCESS) <==> |file| == size) &&
    (st'.output[|st.output|] == Line(UPLOAD_ERROR) <==> |file| < size && st'.input != []) &&
    (st'.output[|st.output|] == Line(UPLOAD_FAILED) <==> |file| != size && !(|file| < size && st'.input != [])) &&
    (|file| < size ==> st'.input == [] || !st'.input[0].Raw?)
  }

  /** Whatever the stream holds after a non-negative size, the upload ends
      as `Stored` says, and the stored bytes are exactly those that followed
      the length prefix up to where the worker stopped reading (the prefix
      itself is `Raws(Encode64(size))`, as `ReadLong` states). */
  lemma ReceiveOutcome(st: Session, name: string, st': Session)
    requires Received(st, name, st')
    requires ReadLong(st.input).GotLong? && ReadLong(st.input).value >= 0
    ensures Stored(st, name, ReadLong(st.input).value, st')
    ensures ReadLong(st.input).rest == Raws(st'.dir[name]) + st'.input
  {
    var size := ReadLong(st.input).value;
    var rest := ReadLong(st.input).rest;
    assert ReceivedPayload(st, name, size, rest, st');
    PayloadOutcome(st, name, size, rest, st');
  }

  lemma PayloadOutcome(st: Session, name: string, size: int, rest: Stream, st': Session)
    requires ReceivedPayload(st, name, size, rest, st')
    ensures Stored(st, name, size, st') && rest == Raws(st'.dir[name]) + st'.input
  {
    var k := |rest| - |st'.input|;
    ReceivableCountBounds(size, rest, k);
    assert rest == rest[..k] + rest[k..];
  }

  /** A negative declared size: nothing is created or answered; only the
      eight bytes are consumed. A size that cannot be read: the answer is
      `UPLOAD_ERROR` and the directory is untouched. */
  lemma ReceiveRejected(st: Session, name: string, st': Session)
    requires Received(st, name, st')
    ensures ReadLong(st.input).GotLong? && ReadLong(st.input).value < 0 ==>
      st'.dir == st.dir && st'.output == st.output && |st'.input| == |st.input| - 8
    ensures ReadLong(st.input).LongFailed? ==>
      st'.dir == st.dir && st'.output == st.output + [Line(UPLOAD_ERROR)] &&
      st'.input == st.input[RunLength(st.input)..]
  {
  }

  /** `deleteFile` removes only that entry, silently does nothing for a
      missing name, and never writes to the connection. */
  lemma DeleteOnlyThatEntry(st: Session, name: string, st': Session)
    requires Handled(st, Delete(name), st')
    ensures name !in st'.dir
    ensures forall n :: n != name ==> (n in st'.dir <==> n in st.dir) && (n in st.dir ==> st'.dir[n] == st.dir[n])
    ensures name !in st.dir ==> st'.dir == st.dir
    ensures st'.output == st.output && st'.input == st.input
  {
    if name !in st.dir {
      assert st.dir - {name} == st.dir;
    }
  }

  /** The list reply has one line per directory entry, each entry exactly
      once, then the single sentinel; an empty directory gets only the
      sentinel. Nothing else changes. */
  lemma ListedReply(st: Session, st': Session)
    requires Listed(st, st')
    ensures st'.dir == st.dir && st'.input == st.input
    ensures st'.output[..|st.output|] == st.output
    ensures ListingReply(st'.output[|st.output|..], st.dir)
    ensures st.dir == map[] ==> st'.output == st.output + [Line(END_OF_LIST)]
  {
    var names :| IsListing(names, st.dir) && st' == st.(output := st.output + ListReply(names));
    ListReplyShape(names, st.dir);
    assert st'.output[|st.output|..] == ListReply(names);
    if st.dir == map[] {
      assert |names| == 0;
      assert ListReply(names) == [Line(END_OF_LIST)];
    }
  }

  /** `out` is a list reply for `dir`: one line per entry, each entry
      exactly once, then the single sentinel. */
  ghost predicate ListingReply(out: seq<Token>, dir: Directory) {
    |out| == |dir| + 1 && out[|dir|] == Line(END_OF_LIST) &&
    (forall i :: 0 <= i < |dir| ==> out[i].Line? && out[i].text in dir) &&
    (forall n :: n in dir ==> Line(n) in out[..|dir|]) &&
    (forall i, j :: 0 <= i < j < |dir| ==> out[i] != out[j])
  }

  lemma ListReplyShape(names: seq<string>, dir: Directory)
    requires IsListing(names, dir)
    ensures ListingReply(ListReply(names), dir)
  {
    DistinctCount(names, dir.Keys);
    var out := ListReply(names);
    forall i | 0 <= i < |dir|
      ensures out[i].Line? && out[i].text in dir
    {
      assert out[i] == Line(names[i]) && names[i] in names;
    }
    forall i, j | 0 <= i < j < |dir|
      ensures out[i] != out[j]
    {
      assert out[i] == Line(names[i]) && out[j] == Line(names[j]);
    }
    forall n | n in dir
      ensures Line(n) in out[..|dir|]
    {
      var i :| 0 <= i < |names| && names[i] == n;
      assert out[..|dir|][i] == Line(n);
    }
  }

  /** A sequence without repetitions whose elements are exactly a set has
      as many elements as the set. */
  lemma {:induction false} DistinctCount<T>(names: seq<T>, keys: set<T>)
    requires forall i, j :: 0 <= i < j < |names| ==> names[i] != names[j]
    requires forall n :: n in names <==> n in keys
    ensures |names| == |keys|
  {
    if names != [] {
      var last := names[|names| - 1];
      var front := names[..|names| - 1];
      forall n
        ensures n in front <==> n in keys - {last}
      {
        if n in front {
          var i :| 0 <= i < |front| && front[i] == n;
          assert names[i] == n;
        }
        if n in names && n != last {
          var i :| 0 <= i < |names| && names[i] == n;
          assert front[i] == n;
        }
      }
      DistinctCount(front, keys - {last});
    } else {
      assert keys == {};
    }
  }

  /** A line none of the four verbs starts (`exit` among them) is read and
      dropped: no answer, no change to the directory. */
  lemma UnknownLineIgnored(st: Session, st': Session)
    requires st.input != [] && st.input[0].Line?
    requires var line := st.input[0].text;
      !("list" <= line) && !("upload" <= line) && !("download" <= line) && !("delete" <= line)
    ensures Step(st, st') <==> st' == st.(input := st.input[1..])
  {
  }
}
