/** Both sides of the connection together: what one side writes, read by
    the other. */
module Exchange {
  import opened Wire
  import opened Protocol
  import Server
  import Client

  /** Any command line the client writes is served by the worker as that
      command: the line is consumed and the command's effect follows. */
  lemma ServeCommandLine(c: Command, st: Server.Session, rest: Stream, st': Server.Session)
    requires st.input == [Line(CommandLine(c))] + rest
    ensures Server.Step(st, st') <==> Server.Handled(st.(input := rest), c, st')
  {
    DecodeCommandLine(c);
    assert st.input[1..] == rest;
  }

  /** `download <name>` leaves the directory alone and answers the file's
      reply: its size and bytes, or `FILE_NOT_FOUND`. */
  lemma DownloadServed(st: Server.Session, name: string, rest: Stream, st': Server.Session)
    requires st.input == [Line(CommandLine(Download(name)))] + rest
    ensures Server.Step(st, st') <==>
      st' == Server.Session(st.dir, rest, st.output + DownloadReply(st.dir, name))
  {
    ServeCommandLine(Download(name), st, rest, st');
  }

  /** `delete <name>` removes exactly that entry and answers nothing. */
  lemma DeleteRoundTrip(dir: Directory, name: string, rest: Stream, out: seq<Token>, st': Server.Session)
    requires |rest| < LONG_MAX
    ensures var st := Server.Session(dir, [Line(CommandLine(Delete(name)))] + rest, out);
      Server.Step(st, st') <==> st' == Server.Session(dir - {name}, rest, out)
  {
    var st := Server.Session(dir, [Line(CommandLine(Delete(name)))] + rest, out);
    ServeCommandLine(Delete(name), st, rest, st');
  }

  /** The client reads a list reply whose names do not include the
      sentinel's text back as exactly those names, and stops right after
      the sentinel. */
  lemma CollectListReply(names: seq<string>, rest: seq<Token>)
    requires END_OF_LIST !in names
    ensures Client.Collect(ListReply(names) + rest) == Client.Collected(Client.ListDone, names, rest)
  {
    CollectLines(names, [Line(END_OF_LIST)] + rest);
    assert ListReply(names) + rest == Lines(names) + ([Line(END_OF_LIST)] + rest);
    assert ([Line(END_OF_LIST)] + rest)[1..] == rest;
  }

  /** Lines without the sentinel's text are collected one by one, and the
      stream after them decides how the listing ends. */
  lemma {:induction false} CollectLines(names: seq<string>, s: seq<Token>)
    requires END_OF_LIST !in names
    ensures var c := Client.Collect(s);
      Client.Collect(Lines(names) + s) == Client.Collected(c.outcome, names + c.names, c.rest)
  {
    if names == [] {
      assert Lines(names) + s == s;
    } else {
      var t := Lines(names[1..]) + s;
      Regroup([Line(names[0])], Lines(names[1..]), s);
      CollectLines(names[1..], s);
      Client.CollectHead(names[0], t);
      var c := Client.Collect(s);
      Regroup([names[0]], names[1..], c.names);
      assert names == [names[0]] + names[1..];
    }
  }

  /** A file that happens to be called `END_OF_LIST` ends the client's list
      early: the names after it are left unread on the connection. */
  lemma SentinelNameTruncates(front: seq<string>, back: seq<string>, rest: seq<Token>)
    requires END_OF_LIST !in front
    ensures var c := Client.Collect(ListReply(front + [END_OF_LIST] + back) + rest);
      c.outcome == Client.ListDone && c.names == front &&
      c.rest == ListReply(back) + rest
  {
    var names := front + [END_OF_LIST] + back;
    var s := [Line(END_OF_LIST)] + (ListReply(back) + rest);
    calc {
      ListReply(names) + rest;
      Lines(names) + [Line(END_OF_LIST)] + rest;
      { LinesAppend(front + [END_OF_LIST], back); }
      Lines(front + [END_OF_LIST]) + Lines(back) + [Line(END_OF_LIST)] + rest;
      { LinesAppend(front, [END_OF_LIST]);
        assert Lines([END_OF_LIST]) == [Line(END_OF_LIST)]; }
      Lines(front) + [Line(END_OF_LIST)] + Lines(back) + [Line(END_OF_LIST)] + rest;
      { SplitAfterSentinel(Lines(front), Lines(back), rest); }
      Lines(front) + s;
    }
    CollectLines(front, s);
    assert s[1..] == ListReply(back) + rest;
    assert front + [] == front;
  }

  lemma SplitAfterSentinel(a: seq<Token>, b: seq<Token>, rest: seq<Token>)
    ensures a + [Line(END_OF_LIST)] + b + [Line(END_OF_LIST)] + rest ==
      a + ([Line(END_OF_LIST)] + (b + [Line(END_OF_LIST)] + rest))
  {
  }

  /** An upload followed by a download of the same name: the worker
      stores the file and answers `UPLOAD_SUCCESS`, then answers the
      download with that file; the client reads the first answer as a
      success, and the download puts exactly the uploaded bytes in its
      folder. */
  lemma UploadThenDownload(dir: Directory, file: Client.LocalFile, rest: Stream, out: seq<Token>,
                           st1: Server.Session, st2: Server.Session, sent: seq<Token>, more: Stream,
                           cst: Client.ClientState, cst': Client.ClientState)
    requires |UploadFrame(file.name, file.content)| + 1 + |rest| <= LONG_MAX
    requires var input := UploadFrame(file.name, file.content) + [Line(CommandLine(Download(file.name)))] + rest;
      Server.Step(Server.Session(dir, input, out), st1) && Server.Step(st1, st2)
    requires st2.output == out + sent && (more == [] || !more[0].Raw?)
    requires cst.inbound == Client.ReadVerdict(file.name, sent + more).rest
    requires Client.DownloadedFile(cst, file.name, cst')
    ensures st2.dir == dir[file.name := file.content] && st2.input == rest
    ensures Client.ReadVerdict(file.name, sent + more).ok
    ensures Client.ReadVerdict(file.name, sent + more).note == Client.Uploaded(file.name)
    ensures cst'.inbound == more && cst'.local == cst.local[file.name := file.content]
    ensures cst'.log == cst.log + [Client.Downloaded(file.name)]
  {
    var dir' := dir[file.name := file.content];
    UploadThenServe(dir, file, rest, out, st1, st2);
    Regroup(out, [Line(UPLOAD_SUCCESS)], DownloadReply(dir', file.name));
    assert st2.output[|out|..] == sent;
    VerdictThenDownload(dir', file.name, sent, more, cst, cst');
  }

  /** The client reading `UPLOAD_SUCCESS` and then the worker's download
      reply for a stored file: the upload is a success, and the download
      puts exactly the stored bytes in its folder. */
  lemma VerdictThenDownload(dir: Directory, name: string, sent: seq<Token>, more: Stream,
                            cst: Client.ClientState, cst': Client.ClientState)
    requires name in dir && sent == [Line(UPLOAD_SUCCESS)] + DownloadReply(dir, name)
    requires more == [] || !more[0].Raw?
    requires cst.inbound == Client.ReadVerdict(name, sent + more).rest
    requires Client.DownloadedFile(cst, name, cst')
    ensures Client.ReadVerdict(name, sent + more) == Client.Verdict(true, Client.Uploaded(name), cst.inbound)
    ensures cst'.inbound == more && cst'.local == cst.local[name := dir[name]]
    ensures cst'.log == cst.log + [Client.Downloaded(name)]
  {
    var reply := DownloadReply(dir, name);
    Regroup([Line(UPLOAD_SUCCESS)], reply, more);
    DropHead(Line(UPLOAD_SUCCESS), reply + more);
    DownloadRoundTrip(dir, name, more, cst, cst');
  }

  /** The worker serving an upload frame and then `download` of the same
      name answers `UPLOAD_SUCCESS` and then the stored file. */
  lemma UploadThenServe(dir: Directory, file: Client.LocalFile, rest: Stream, out: seq<Token>,
                        st1: Server.Session, st2: Server.Session)
    requires |UploadFrame(file.name, file.content)| + 1 + |rest| <= LONG_MAX
    requires var input := UploadFrame(file.name, file.content) + [Line(CommandLine(Download(file.name)))] + rest;
      Server.Step(Server.Session(dir, input, out), st1) && Server.Step(st1, st2)
    ensures var dir' := dir[file.name := file.content];
      st2 == Server.Session(dir', rest, out + [Line(UPLOAD_SUCCESS)] + DownloadReply(dir', file.name))
  {
    var frame := UploadFrame(file.name, file.content);
    var line := [Line(CommandLine(Download(file.name)))];
    assert |line + rest| == 1 + |rest| && |frame + (line + rest)| == |frame| + 1 + |rest|;
    var rest1: Stream := line + rest;
    Regroup(frame, line, rest);
    var dir' := dir[file.name := file.content];
    var mid := Server.Session(dir', rest1, out + [Line(UPLOAD_SUCCESS)]);
    UploadServed(dir, file, rest1, out, st1);
    assert st1 == mid;
    DownloadServed(mid, file.name, rest, st2);
  }

  lemma UploadServed(dir: Directory, file: Client.LocalFile, rest: Stream, out: seq<Token>, st': Server.Session)
    requires |UploadFrame(file.name, file.content) + rest| <= LONG_MAX
    requires rest == [] || !rest[0].Raw?
    ensures var st := Server.Session(dir, UploadFrame(file.name, file.content) + rest, out);
      Server.Step(st, st') <==>
      st' == Server.Session(dir[file.name := file.content], rest, out + [Line(UPLOAD_SUCCESS)])
  {
    var frame := UploadFrame(file.name, file.content);
    var header := [Line(CommandLine(Upload(file.name)))];
    var size := Raws(Encode64(|file.content|));
    var bytes := Raws(file.content);
    var body: Stream := size + bytes + rest;
    var st := Server.Session(dir, frame + rest, out);
    assert frame == header + size + bytes;
    Regroup(header, size + bytes, rest);
    Regroup(header, size, bytes);
    ServeCommandLine(Upload(file.name), st, body, st');
    Server.ReceiveExactFrame(st.(input := body), file.name, file.content, rest, st');
  }

  /** The worker's answer to `download <name>`, read by `downloadFile`
      (when nothing but a line or the end follows): a present file arrives
      whole under its name and is reported downloaded; a missing one is
      reported not found and nothing local changes. */
  lemma DownloadRoundTrip(dir: Directory, name: string, rest: Stream, st: Client.ClientState, st': Client.ClientState)
    requires st.inbound == DownloadReply(dir, name) + rest
    requires rest == [] || !rest[0].Raw?
    requires Client.DownloadedFile(st, name, st')
    ensures st'.inbound == rest
    ensures name in dir ==>
      st'.local == st.local[name := dir[name]] && st'.log == st.log + [Client.Downloaded(name)]
    ensures name !in dir ==>
      st'.local == st.local && st'.log == st.log + [Client.NotFound(name)] && st'.ticks == st.ticks
  {
    DownloadReplyFraming(dir, name, rest);
    if name in dir {
      var content := dir[name];
      var body: Stream := ReadLong(st.inbound).rest;
      assert ReadLong(st.inbound) == GotLong(|content|, body);
      Client.DownloadedExact(st, name, content, body, rest, st');
    }
  }
}
