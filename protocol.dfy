/** The control-line grammar both sides share: the command lines the client
    writes, the server's decoding of them, and the shapes of the server's
    answers (the list reply, the upload verdicts, the download reply). */
module Protocol {
  import opened Wire

  const END_OF_LIST := "END_OF_LIST"
  const UPLOAD_SUCCESS := "UPLOAD_SUCCESS"
  const UPLOAD_FAILED := "UPLOAD_FAILED"
  const UPLOAD_ERROR := "UPLOAD_ERROR"

  /** The server's storage directory: file name to content. */
  type Directory = map<string, Content>

  datatype Option<T> = None | Some(value: T)

  /** What the server does with one control line. `Other` is every line it
      drops without answering, `exit` among them. */
  datatype Command = List | Upload(name: string) | Download(name: string) | Delete(name: string) | Other

  /** `handleCommand`: the first matching prefix of `list`, `upload`,
      `download`, `delete` decides; the file name is the text from index 7
      (upload, delete) or 9 (download). `None` is the
      `StringIndexOutOfBoundsException` that `substring` throws when the line
      is shorter than that index. */
  function Decode(line: string): (r: Option<Command>)
    ensures r.None? <==>
      (!("list" <= line) &&
       (("upload" <= line && |line| < 7) ||
        (!("upload" <= line) && "download" <= line && |line| < 9) ||
        (!("upload" <= line) && !("download" <= line) && "delete" <= line && |line| < 7)))
  {
    if "list" <= line then Some(List)
    else if "upload" <= line then
      if |line| < 7 then None else Some(Upload(line[7..]))
    else if "download" <= line then
      if |line| < 9 then None else Some(Download(line[9..]))
    else if "delete" <= line then
      if |line| < 7 then None else Some(Delete(line[7..]))
    else Some(Other)
  }

  /** The line the client writes for a command (`exit` for `Other`). */
  function CommandLine(c: Command): (line: string)
  {
    match c
    case List => "list"
    case Upload(name) => "upload " + name
    case Download(name) => "download " + name
    case Delete(name) => "delete " + name
    case Other => "exit"
  }

  /** Every line the client writes is read back by the server as the command
      it was written for; `exit` is dropped. */
  lemma DecodeCommandLine(c: Command)
    ensures Decode(CommandLine(c)) == Some(c)
  {
    var line := CommandLine(c);
    match c
    case List =>
    case Upload(name) =>
      assert line[..6] == "upload" && line[0] != 'l';
      assert line[7..] == name;
    case Download(name) =>
      assert line[..8] == "download" && line[0] != 'l' && line[0] != 'u';
      assert line[9..] == name;
    case Delete(name) =>
      assert line[..6] == "delete" && line[1] != 'i' && line[0] != 'u' && line[1] != 'o';
      assert line[7..] == name;
    case Other =>
      assert line[0] != 'l' && line[0] != 'u' && line[0] != 'd';
  }

  /** Prefixes are tried in order: a line starting with `list` is a listing
      whatever follows, and a line starting with `upload` is an upload. */
  lemma DecodeOrder(line: string)
    ensures "list" <= line ==> Decode(line) == Some(List)
    ensures "upload" <= line ==> Decode(line) == if |line| < 7 then None else Some(Upload(line[7..]))
  {
    if "upload" <= line {
      assert line[1] == 'p';
    }
  }

  /** The character right after the verb is dropped whatever it is, so
      `uploadXa` uploads `a` and `downloads` downloads the empty name. */
  lemma DecodeDropsSeparator(verb: string, sep: char, name: string)
    requires verb in {"upload", "download", "delete"}
    ensures Decode(verb + [sep] + name) ==
      Some(if verb == "upload" then Upload(name)
           else if verb == "download" then Download(name)
           else Delete(name))
  {
    var line := verb + [sep] + name;
    assert line[..|verb|] == verb;
    assert line[|verb| + 1..] == name;
    assert line[0] != 'l';
    if verb == "download" { assert line[0] != 'u'; }
    if verb == "delete" { assert line[0] != 'u' && line[1] != 'o'; }
  }

  /** A bare verb without its separator is the exception case. */
  lemma DecodeBareVerb()
    ensures Decode("upload") == None
    ensures Decode("download") == None
    ensures Decode("delete") == None
    ensures Decode("exit") == Some(Other)
  {
    assert "upload"[0] != 'l' && "download"[0] != 'l' && "download"[0] != 'u';
    assert "delete"[0] != 'l' && "delete"[0] != 'u' && "delete"[1] != 'o';
    var exit := "exit";
    assert exit[0] != 'l' && exit[0] != 'u' && exit[0] != 'd';
  }

  /** One line per name, in order. */
  function Lines(names: seq<string>): (s: seq<Token>)
    ensures |s| == |names|
    ensures forall i :: 0 <= i < |s| ==> s[i] == Line(names[i])
  {
    if names == [] then [] else [Line(names[0])] + Lines(names[1..])
  }

  /** The lines of two lists of names, one after the other. */
  lemma {:induction false} LinesAppend(a: seq<string>, b: seq<string>)
    ensures Lines(a + b) == Lines(a) + Lines(b)
  {
    assert |Lines(a + b)| == |Lines(a) + Lines(b)|;
    forall i | 0 <= i < |a| + |b|
      ensures Lines(a + b)[i] == (Lines(a) + Lines(b))[i]
    {
    }
  }

  /** `sendFileList`: the names, one line each, then the sentinel. */
  function ListReply(names: seq<string>): (s: seq<Token>)
    ensures |s| == |names| + 1 && s[|names|] == Line(END_OF_LIST)
    ensures forall i :: 0 <= i < |names| ==> s[i] == Line(names[i])
    ensures END_OF_LIST !in names ==> forall i :: 0 <= i < |names| ==> s[i] != Line(END_OF_LIST)
  {
    Lines(names) + [Line(END_OF_LIST)]
  }

  /** What `uploadFile` writes for a file: the command line, the 8-byte
      length, the content. */
  function UploadFrame(name: string, content: Content): (s: seq<Token>)
    ensures |s| == 9 + |content|
    ensures s[0] == Line(CommandLine(Upload(name)))
    ensures ReadLong(s[1..]) == GotLong(|content|, Raws(content))
  {
    ReadLongOfEncode64(|content|, Raws(content));
    var frame := [Line(CommandLine(Upload(name)))] + Raws(Encode64(|content|)) + Raws(content);
    assert frame[1..] == Raws(Encode64(|content|)) + Raws(content);
    frame
  }

  /** What `sendFile` writes: -1 for a missing file, otherwise the length
      and the content. */
  function DownloadReply(dir: Directory, name: string): (s: seq<Token>)
  {
    if name in dir then Raws(Encode64(|dir[name]|)) + Raws(dir[name])
    else Raws(Encode64(-1))
  }

  /** A missing file is answered by exactly the eight bytes of -1; a present
      one by its length and then exactly its content. Reading the answer
      back gives the declared value and, for a present file, its bytes. */
  lemma DownloadReplyFraming(dir: Directory, name: string, rest: seq<Token>)
    ensures name !in dir ==>
      DownloadReply(dir, name) == Raws([255, 255, 255, 255, 255, 255, 255, 255]) &&
      ReadLong(DownloadReply(dir, name) + rest) == GotLong(-1, rest)
    ensures name in dir ==>
      var s := DownloadReply(dir, name) + rest;
      var content := dir[name];
      |DownloadReply(dir, name)| == 8 + |content| &&
      ReadLong(s) == GotLong(|content|, Raws(content) + rest) &&
      RunLength(Raws(content) + rest) >= |content| &&
      Payload(Raws(content) + rest, |content|) == content
  {
    if name in dir {
      var content := dir[name];
      assert DownloadReply(dir, name) + rest == Raws(Encode64(|content|)) + (Raws(content) + rest);
      ReadLongOfEncode64(|content|, Raws(content) + rest);
      RunOfRaws(content, rest);
    } else {
      EncodeMinusOne();
      ReadLongOfEncode64(-1, rest);
    }
  }
}
