/** The client's protocol operations (FTPClientGUI.java): listing, upload
    with retries, download, delete. Each one writes its command line, reads
    the server's answer from the same connection, and records what the user
    would see: the file list, messages, progress ticks and the local
    download folder. */
module Client {
  import opened Wire
  import opened Protocol
  import opened ProgressBar

  /** A file picked for upload: `file.getName()` and the bytes
      `FileInputStream` reads from it. */
  datatype LocalFile = LocalFile(name: string, content: Content)

  /** What the client tells the user, through the log area or an error
      dialog. */
  datatype Note =
    | Connected
    | Uploaded(name: string)
    | UploadFailed(name: string)
    | UploadError(name: string)
    | Retrying(name: string)
    | Skipping(name: string)
    | NotFound(name: string)
    | Downloaded(name: string)
    | DownloadFailed(name: string)
    | Deleted(name: string)
    | ListUpdated
    | ListError
    | SelectToDownload
    | SelectToDelete

  /** Everything the client's operations read or change. */
  datatype ClientState = ClientState(
    inbound: Stream, outbound: seq<Token>, fileList: seq<string>,
    local: Directory, log: seq<Note>, ticks: seq<Tick>)

  // ----- listFiles -----

  /** How the read loop of `listFiles` ends: at the sentinel, on an
      `IOException`, or on the `NullPointerException` of `null.equals`
      when the stream ends first. */
  datatype ListOutcome = ListDone | ServerDown | NoSentinel

  datatype Collected = Collected(outcome: ListOutcome, names: seq<string>, rest: seq<Token>)

  /** The lines `listFiles` collects from s, how it stops, and what it
      leaves unread. */
  function Collect(s: seq<Token>): (c: Collected)
    ensures |c.rest| <= |s|
    decreases |s|
  {
    match ReadLine(s)
    case EndOfStream => Collected(NoSentinel, [], s)
    case ReadFault => Collected(ServerDown, [], s)
    case GotLine(response) =>
      if response == END_OF_LIST then Collected(ListDone, [], s[1..])
      else
        var c := Collect(s[1..]);
        Collected(c.outcome, [response] + c.names, c.rest)
  }

  /** The names are exactly the lines before the first sentinel, which is
      consumed; a list without its sentinel is read to the end of the
      stream, or up to a failure. */
  lemma {:induction false} CollectShape(s: seq<Token>)
    ensures var c := Collect(s);
      END_OF_LIST !in c.names &&
      (c.outcome == ListDone ==> s == Lines(c.names) + [Line(END_OF_LIST)] + c.rest) &&
      (c.outcome != ListDone ==> s == Lines(c.names) + c.rest) &&
      (c.outcome == ServerDown ==> c.rest != [] && !c.rest[0].Line?) &&
      (c.outcome == NoSentinel ==> c.rest == [])
    decreases |s|
  {
    if s != [] && s[0].Line? && s[0].text != END_OF_LIST {
      var c := Collect(s[1..]);
      CollectShape(s[1..]);
      LinesAppend([s[0].text], c.names);
      assert s == [s[0]] + s[1..];
      if c.outcome == ListDone {
        Regroup([s[0]], Lines(c.names) + [Line(END_OF_LIST)], c.rest);
        Regroup([s[0]], Lines(c.names), [Line(END_OF_LIST)]);
      } else {
        Regroup([s[0]], Lines(c.names), c.rest);
      }
    }
  }

  /** A line other than the sentinel is collected and reading goes on. */
  lemma CollectHead(n: string, t: seq<Token>)
    requires n != END_OF_LIST
    ensures var c := Collect(t);
      Collect([Line(n)] + t) == Collected(c.outcome, [n] + c.names, c.rest)
  {
    assert ([Line(n)] + t)[1..] == t;
  }

  /** The message `listFiles` leaves for an outcome. */
  function ListNotes(outcome: ListOutcome): (notes: seq<Note>)
  {
    match outcome
    case ListDone => [ListUpdated]
    case ServerDown => [ListError]
    case NoSentinel => []
  }

  // ----- uploadFile -----

  datatype Verdict = Verdict(ok: bool, note: Note, rest: seq<Token>)

  /** The reply `uploadFile` reads after sending a file: true iff it is
      exactly `UPLOAD_SUCCESS`; any other line (or `null`) is a failure,
      an `IOException` an error. */
  function ReadVerdict(name: string, s: seq<Token>): (v: Verdict)
    ensures v.ok <==> s != [] && s[0] == Line(UPLOAD_SUCCESS)
    ensures v.note == if v.ok then Uploaded(name)
                      else if s == [] || s[0].Line? then UploadFailed(name)
                      else UploadError(name)
    ensures v.rest == if s != [] && s[0].Line? then s[1..] else s
  {
    match ReadLine(s)
    case GotLine(response) =>
      if response == UPLOAD_SUCCESS then Verdict(true, Uploaded(name), s[1..])
      else Verdict(false, UploadFailed(name), s[1..])
    case EndOfStream => Verdict(false, UploadFailed(name), s)
    case ReadFault => Verdict(false, UploadError(name), s)
  }

  // ----- uploadFiles -----

  datatype Retried = Retried(ok: bool, tries: nat, notes: seq<Note>, rest: seq<Token>)

  /** The retry loop of `uploadFiles` for one file, from the point where
      the counter holds `attempts` before its test and no attempt has
      succeeded yet: each test decrements the counter; an attempt runs while
      the tested value was positive; a failure leaves `Retrying` when the
      counter is still positive; all attempts failing leaves `Skipping`. */
  function Retry(name: string, s: seq<Token>, attempts: int): (r: Retried)
    ensures |r.rest| <= |s|
    decreases attempts
  {
    if attempts <= 0 then Retried(false, 0, [Skipping(name)], s)
    else
      var v := ReadVerdict(name, s);
      if v.ok then Retried(true, 1, [v.note], v.rest)
      else
        var next := Retry(name, v.rest, attempts - 1);
        var retrying := if attempts - 1 > 0 then [Retrying(name)] else [];
        Retried(next.ok, next.tries + 1, [v.note] + retrying + next.notes, next.rest)
  }

  /** From a counter value `attempts`: at most that many attempts, at least
      one when it is positive, and all of them when none succeeds. */
  lemma {:induction false} RetryTries(name: string, s: seq<Token>, attempts: int)
    ensures var r := Retry(name, s, attempts);
      var n := if attempts < 0 then 0 else attempts;
      r.tries <= n && (n > 0 ==> r.tries >= 1) &&
      (r.ok ==> r.tries >= 1) && (!r.ok ==> r.tries == n)
    decreases attempts
  {
    if attempts > 0 && !ReadVerdict(name, s).ok {
      RetryTries(name, ReadVerdict(name, s).rest, attempts - 1);
    }
  }

  /** The last note says how the loop ended: `Uploaded` iff an attempt
      succeeded, `Skipping` iff none did. */
  lemma {:induction false} RetryLast(name: string, s: seq<Token>, attempts: int)
    ensures var r := Retry(name, s, attempts);
      r.notes != [] &&
      (r.ok <==> r.notes[|r.notes| - 1] == Uploaded(name)) &&
      (!r.ok <==> r.notes[|r.notes| - 1] == Skipping(name))
    decreases attempts
  {
    if attempts > 0 {
      var v := ReadVerdict(name, s);
      if !v.ok {
        var next := Retry(name, v.rest, attempts - 1);
        RetryLast(name, v.rest, attempts - 1);
        var retrying := if attempts - 1 > 0 then [Retrying(name)] else [];
        var notes := [v.note] + retrying + next.notes;
        assert Retry(name, s, attempts) == Retried(next.ok, next.tries + 1, notes, next.rest);
        assert notes[|notes| - 1] == next.notes[|next.notes| - 1];
      }
    }
  }

  /** Neither `Uploaded` nor `Skipping` comes before the last note. */
  predicate NoEarlyEnd(notes: seq<Note>, name: string) {
    forall i :: 0 <= i < |notes| - 1 ==> notes[i] != Uploaded(name) && notes[i] != Skipping(name)
  }

  /** The attempts stop at the first success, and `Skipping` only closes
      the notes. */
  lemma {:induction false} RetryEarly(name: string, s: seq<Token>, attempts: int)
    ensures NoEarlyEnd(Retry(name, s, attempts).notes, name)
    decreases attempts
  {
    if attempts > 0 {
      var v := ReadVerdict(name, s);
      if !v.ok {
        var next := Retry(name, v.rest, attempts - 1);
        RetryEarly(name, v.rest, attempts - 1);
        var retrying := if attempts - 1 > 0 then [Retrying(name)] else [];
        var notes := [v.note] + retrying + next.notes;
        assert Retry(name, s, attempts) == Retried(next.ok, next.tries + 1, notes, next.rest);
        assert v.note != Uploaded(name) && v.note != Skipping(name);
        forall i | 0 <= i < |notes| - 1
          ensures notes[i] != Uploaded(name) && notes[i] != Skipping(name)
        {
          if i == 0 {
            assert notes[i] == v.note;
          } else if i < 1 + |retrying| {
            assert notes[i] == Retrying(name);
          } else {
            assert notes[i] == next.notes[i - 1 - |retrying|];
          }
        }
      }
    }
  }

  /** `Retrying` follows every failed attempt but the last one. */
  lemma {:induction false} RetryCount(name: string, s: seq<Token>, attempts: int)
    ensures var r := Retry(name, s, attempts);
      Occurrences(r.notes, Retrying(name)) == if r.tries == 0 then 0 else r.tries - 1
    decreases attempts
  {
    if attempts > 0 {
      var v := ReadVerdict(name, s);
      if !v.ok {
        var next := Retry(name, v.rest, attempts - 1);
        RetryCount(name, v.rest, attempts - 1);
        RetryTries(name, v.rest, attempts - 1);
        var retrying := if attempts - 1 > 0 then [Retrying(name)] else [];
        var head := [v.note] + retrying;
        assert Retry(name, s, attempts) == Retried(next.ok, next.tries + 1, head + next.notes, next.rest);
        OccurrencesAppend(head, next.notes, Retrying(name));
        assert Occurrences(head, Retrying(name)) == |retrying| by {
          assert v.note != Retrying(name);
          assert head[1..] == retrying;
        }
      }
    }
  }

  /** How often x occurs in notes. */
  function Occurrences(notes: seq<Note>, x: Note): (n: nat)
    ensures n <= |notes|
  {
    if notes == [] then 0
    else (if notes[0] == x then 1 else 0) + Occurrences(notes[1..], x)
  }

  lemma {:induction false} OccurrencesAppend(a: seq<Note>, b: seq<Note>, x: Note)
    ensures Occurrences(a + b, x) == Occurrences(a, x) + Occurrences(b, x)
  {
    if a != [] {
      assert (a + b)[1..] == a[1..] + b;
      OccurrencesAppend(a[1..], b, x);
    } else {
      assert a + b == b;
    }
  }

  /** Three attempts at most, at least one, all three when none succeeds;
      `Skipping` is left iff all three failed; at most two `Retrying`
      notes. */
  lemma RetryBounds(name: string, s: seq<Token>)
    ensures var r := Retry(name, s, 3);
      1 <= r.tries <= 3 && (!r.ok ==> r.tries == 3) &&
      (!r.ok <==> Skipping(name) in r.notes) &&
      Occurrences(r.notes, Retrying(name)) == r.tries - 1 <= 2
  {
    RetryTries(name, s, 3);
    RetryLast(name, s, 3);
    RetryEarly(name, s, 3);
    RetryCount(name, s, 3);
    var r := Retry(name, s, 3);
    var last := |r.notes| - 1;
    if Skipping(name) in r.notes {
      var i :| 0 <= i < |r.notes| && r.notes[i] == Skipping(name);
      assert i == last;
    }
    if !r.ok {
      assert r.notes[last] in r.notes;
    }
  }

  /** `n` copies of `s`. */
  function Repeat(s: seq<Token>, n: nat): (r: seq<Token>)
    ensures |r| == n * |s|
  {
    if n == 0 then [] else Repeat(s, n - 1) + s
  }

  /** What the batch of `uploadFiles` has left unread after the files
      whose retry loops are `done`. */
  function After(done: seq<Retried>, s: seq<Token>): (rest: seq<Token>)
  {
    if done == [] then s else done[|done| - 1].rest
  }

  /** The retry loops of a batch, in selection order. */
  function Batch(files: seq<LocalFile>, s: seq<Token>): (b: seq<Retried>)
    ensures |b| == |files|
  {
    if files == [] then []
    else
      var front := Batch(files[..|files| - 1], s);
      front + [Retry(files[|files| - 1].name, After(front, s), 3)]
  }

  /** Files are handled in selection order: each file's retry loop reads
      the stream the previous file's loop left. */
  predicate Chained(files: seq<LocalFile>, b: seq<Retried>, s: seq<Token>)
    requires |b| == |files|
  {
    forall i {:trigger files[i]} :: 0 <= i < |files| ==> b[i] == Retry(files[i].name, After(b[..i], s), 3)
  }

  lemma {:induction false} BatchOrder(files: seq<LocalFile>, s: seq<Token>)
    ensures Chained(files, Batch(files, s), s)
  {
    if files != [] {
      var n := |files| - 1;
      BatchOrder(files[..n], s);
      BatchLast(files, s);
      var b := Batch(files, s);
      forall i | 0 <= i < |files|
        ensures b[i] == Retry(files[i].name, After(b[..i], s), 3)
      {
        if i < n {
          assert files[..n][i] == files[i];
          BatchAt(files, i, s);
        }
      }
    }
  }

  /** An index before the last file, given its place in the batch without
      the last file. */
  lemma BatchAt(files: seq<LocalFile>, i: nat, s: seq<Token>)
    requires i < |files| - 1
    requires var bf := Batch(files[..|files| - 1], s);
      bf[i] == Retry(files[i].name, After(bf[..i], s), 3)
    ensures var b := Batch(files, s);
      b[i] == Retry(files[i].name, After(b[..i], s), 3)
  {
    var bf := Batch(files[..|files| - 1], s);
    var b := Batch(files, s);
    BatchLast(files, s);
    PrefixAt(b, |files| - 1, i);
  }

  /** A prefix keeps the elements and the shorter prefixes it contains. */
  lemma PrefixAt<T>(a: seq<T>, n: nat, i: nat)
    requires i < n <= |a|
    ensures a[..n][i] == a[i] && a[..n][..i] == a[..i]
  {
  }

  /** The batch extended by the last file's loop, which reads what the
      others left. */
  lemma BatchLast(files: seq<LocalFile>, s: seq<Token>)
    requires files != []
    ensures var bf := Batch(files[..|files| - 1], s);
      var b := Batch(files, s);
      b[..|files| - 1] == bf && b[|files| - 1] == Retry(files[|files| - 1].name, After(bf, s), 3)
  {
  }

  /** The notes of a batch, file after file. */
  function BatchNotes(b: seq<Retried>): (notes: seq<Note>)
  {
    if b == [] then [] else BatchNotes(b[..|b| - 1]) + b[|b| - 1].notes
  }

  /** The upload frames of a batch: each file's frame once per attempt. */
  function BatchSent(files: seq<LocalFile>, b: seq<Retried>): (sent: seq<Token>)
    requires |b| == |files|
  {
    if b == [] then []
    else
      var f := files[|files| - 1];
      BatchSent(files[..|files| - 1], b[..|b| - 1]) + Repeat(UploadFrame(f.name, f.content), b[|b| - 1].tries)
  }

  /** One more file extends a batch by its retry loop, its notes and its
      frames. */
  lemma BatchSnoc(files: seq<LocalFile>, i: nat, s: seq<Token>)
    requires i < |files|
    ensures var b := Batch(files[..i], s);
      var f := files[i];
      var r := Retry(f.name, After(b, s), 3);
      Batch(files[..i + 1], s) == b + [r] &&
      After(b + [r], s) == r.rest &&
      BatchNotes(b + [r]) == BatchNotes(b) + r.notes &&
      BatchSent(files[..i + 1], b + [r]) == BatchSent(files[..i], b) + Repeat(UploadFrame(f.name, f.content), r.tries)
  {
    var front := files[..i + 1];
    assert front[..i] == files[..i];
    BatchLast(front, s);
    var b := Batch(files[..i], s);
    var r := Retry(files[i].name, After(b, s), 3);
    assert Batch(front, s) == b + [r];
    BatchSentSnoc(front, b, r);
  }

  lemma BatchSentSnoc(files: seq<LocalFile>, b: seq<Retried>, r: Retried)
    requires |files| == |b| + 1
    ensures var f := files[|b|];
      BatchSent(files, b + [r]) == BatchSent(files[..|b|], b) + Repeat(UploadFrame(f.name, f.content), r.tries)
  {
    assert (b + [r])[..|b|] == b;
  }

  /** The blocks of ticks one after the other. */
  function Concat(blocks: seq<seq<Tick>>): (ticks: seq<Tick>)
  {
    if blocks == [] then [] else Concat(blocks[..|blocks| - 1]) + blocks[|blocks| - 1]
  }

  /** Each file's block of ticks stays within that file's size. */
  predicate BoundedBlocks(blocks: seq<seq<Tick>>, files: seq<LocalFile>)
    requires |blocks| <= |files|
  {
    forall j :: 0 <= j < |blocks| ==> Bounded(blocks[j], |files[j].content|)
  }

  lemma BlocksSnoc(blocks: seq<seq<Tick>>, files: seq<LocalFile>, added: seq<Tick>)
    requires |blocks| < |files| && BoundedBlocks(blocks, files)
    requires Bounded(added, |files[|blocks|].content|)
    ensures BoundedBlocks(blocks + [added], files)
    ensures Concat(blocks + [added]) == Concat(blocks) + added
  {
    assert (blocks + [added])[..|blocks|] == blocks;
  }

  // ----- downloadFile -----

  /** `downloadFile(name)`: the command line is written; then the declared
      size is read. An `IOException` there is a failed download; -1 means
      the server has no such file and nothing else happens. Otherwise the
      local file is (re)created and the receive loop copies what it takes
      into it, ticking the progress bar per chunk; a failure inside the
      loop leaves the partial file and reports a failed download, while an
      ended stream is reported as downloaded whatever the count. */
  ghost predicate DownloadedFile(st: ClientState, name: string, st': ClientState) {
    st'.outbound == st.outbound + [Line(CommandLine(Download(name)))] &&
    st'.fileList == st.fileList &&
    match ReadLong(st.inbound)
    case LongFailed(rest) =>
      st'.inbound == rest && st'.local == st.local && st'.ticks == st.ticks &&
      st'.log == st.log + [DownloadFailed(name)]
    case GotLong(size, rest) =>
      if size == -1 then
        st'.inbound == rest && st'.local == st.local && st'.ticks == st.ticks &&
        st'.log == st.log + [NotFound(name)]
      else DownloadedPayload(st, name, size, rest, st')
  }

  /** The receive loop of `downloadFile` and its message after a declared
      size other than -1, with `rest` the stream after the prefix: the
      count the loop took is what it left unread. */
  ghost predicate DownloadedPayload(st: ClientState, name: string, size: int, rest: Stream, st': ClientState) {
    |st'.inbound| <= |rest| &&
    var k := |rest| - |st'.inbound|;
    ReceivableCount(size, rest, k) &&
    st'.inbound == rest[k..] &&
    st'.local == st.local[name := Payload(rest, k)] &&
    st'.log == st.log + [if ReceiveBroken(size, rest, k) then DownloadFailed(name) else Downloaded(name)] &&
    Ticked(st.ticks, st'.ticks, size, k)
  }

  /** The ticks grew by one climb to `last` of `total`. */
  ghost predicate Ticked(before: seq<Tick>, after: seq<Tick>, total: int, last: int) {
    |after| >= |before| && after[..|before|] == before && Climb(after[|before|..], total, last)
  }

  /** A declared size followed by exactly that many bytes and then no
      more bytes: the loop takes them all, the local file holds exactly
      them, and the download is reported done. */
  lemma DownloadedExact(st: ClientState, name: string, content: seq<Byte>, body: Stream, rest: seq<Token>, st': ClientState)
    requires body == Raws(content) + rest && (rest == [] || !rest[0].Raw?)
    requires DownloadedPayload(st, name, |content|, body, st')
    ensures st'.inbound == rest
    ensures st'.local == st.local[name := content] && st'.log == st.log + [Downloaded(name)]
  {
    var k := |body| - |st'.inbound|;
    ExactCount(|content|, content, rest, k);
    RunOfRaws(content, rest);
    assert body[|content|..] == rest;
  }

  lemma TickedBy(before: seq<Tick>, block: seq<Tick>, total: int, last: int)
    requires Climb(block, total, last)
    ensures Ticked(before, before + block, total, last)
  {
    assert (before + block)[|before|..] == block;
  }

  /** The retry loop's outcome after `tries` attempts already made and
      `noted` already logged, when the rest of the loop ends as `r`. */
  function Resume(noted: seq<Note>, tries: nat, r: Retried): (total: Retried)
  {
    Retried(r.ok, tries + r.tries, noted + r.notes, r.rest)
  }

  /** A failed attempt with the counter still positive moves one turn on. */
  lemma RetryAdvance(name: string, s: seq<Token>, attempts: int, noted: seq<Note>, tries: nat)
    requires attempts > 0 && !ReadVerdict(name, s).ok
    ensures var v := ReadVerdict(name, s);
      var retrying := if attempts - 1 > 0 then [Retrying(name)] else [];
      Resume(noted, tries, Retry(name, s, attempts)) ==
      Resume(noted + ([v.note] + retrying), tries + 1, Retry(name, v.rest, attempts - 1))
  {
    var v := ReadVerdict(name, s);
    var retrying := if attempts - 1 > 0 then [Retrying(name)] else [];
    var next := Retry(name, v.rest, attempts - 1);
    assert Retry(name, s, attempts).notes == [v.note] + retrying + next.notes;
    assert noted + ([v.note] + retrying + next.notes) == noted + ([v.note] + retrying) + next.notes;
  }

  lemma RetrySucceeds(name: string, s: seq<Token>, attempts: int, noted: seq<Note>, tries: nat)
    requires attempts > 0 && ReadVerdict(name, s).ok
    ensures var v := ReadVerdict(name, s);
      Resume(noted, tries, Retry(name, s, attempts)) == Retried(true, tries + 1, noted + [v.note], v.rest)
  {
  }

  /** One turn of the retry loop, whatever its verdict: the loop's outcome
      is either settled by a success or resumes from the next counter. */
  lemma RetryTurn(name: string, s: seq<Token>, attempts: int, noted: seq<Note>, tries: nat,
                  total: Retried, v: Verdict, retrying: seq<Note>)
    requires attempts > 0 && v == ReadVerdict(name, s)
    requires retrying == if !v.ok && attempts - 1 > 0 then [Retrying(name)] else []
    requires total == Resume(noted, tries, Retry(name, s, attempts))
    ensures v.ok ==> total == Retried(true, tries + 1, noted + ([v.note] + retrying), v.rest)
    ensures !v.ok ==> total == Resume(noted + ([v.note] + retrying), tries + 1, Retry(name, v.rest, attempts - 1))
  {
    if v.ok {
      RetrySucceeds(name, s, attempts, noted, tries);
      assert [v.note] + retrying == [v.note];
    } else {
      RetryAdvance(name, s, attempts, noted, tries);
    }
  }

  /** What one attempt of `uploadFiles` does to the client: the file's
      frame is written, the reply's verdict is logged, followed by
      `Retrying` when it failed and the counter is still positive, and the
      ticks of the upload stay within the file length. */
  ghost predicate Attempted(st: ClientState, st': ClientState, file: LocalFile, tested: int, v: Verdict, added: seq<Tick>) {
    v == ReadVerdict(file.name, st.inbound) && st'.inbound == v.rest &&
    st'.log == st.log + ([v.note] + if !v.ok && tested - 1 > 0 then [Retrying(file.name)] else []) &&
    st'.outbound == st.outbound + UploadFrame(file.name, file.content) &&
    st'.ticks == st.ticks + added && Bounded(added, |file.content|) &&
    st'.fileList == st.fileList && st'.local == st.local
  }

  /** The retry loop for `file`, started in st0, has made `tries` attempts
      and logged `noted`; its outcome `total` is settled when `ok`, and is
      otherwise what the loop yields from the counter `attempts`. */
  ghost predicate RetryKept(st0: ClientState, st: ClientState, file: LocalFile, attempts: int, ok: bool,
                            noted: seq<Note>, tries: nat, block: seq<Tick>, total: Retried) {
    (ok ==> total == Retried(true, tries, noted, st.inbound)) &&
    (!ok ==> total == Resume(noted, tries, Retry(file.name, st.inbound, attempts))) &&
    st.log == st0.log + noted &&
    st.outbound == st0.outbound + Repeat(UploadFrame(file.name, file.content), tries) &&
    st.ticks == st0.ticks + block && Bounded(block, |file.content|) &&
    st.fileList == st0.fileList && st.local == st0.local
  }

  /** One attempt keeps the retry loop's account. */
  lemma RetryKeptTurn(st0: ClientState, st: ClientState, st': ClientState, file: LocalFile, attempts: int,
                      noted: seq<Note>, tries: nat, block: seq<Tick>, total: Retried, v: Verdict, added: seq<Tick>)
    requires attempts > 0 && RetryKept(st0, st, file, attempts, false, noted, tries, block, total)
    requires Attempted(st, st', file, attempts, v, added)
    ensures RetryKept(st0, st', file, attempts - 1, v.ok,
                      noted + ([v.note] + if !v.ok && attempts - 1 > 0 then [Retrying(file.name)] else []),
                      tries + 1, block + added, total)
  {
    var retrying := if !v.ok && attempts - 1 > 0 then [Retrying(file.name)] else [];
    Regroup(st0.ticks, block, added);
    BoundedAppend(block, added, |file.content|);
    Regroup(st0.outbound, Repeat(UploadFrame(file.name, file.content), tries), UploadFrame(file.name, file.content));
    Regroup(st0.log, noted, [v.note] + retrying);
    RetryTurn(file.name, st.inbound, attempts, noted, tries, total, v, retrying);
  }

  lemma RetryExhausted(name: string, s: seq<Token>, attempts: int, noted: seq<Note>, tries: nat)
    requires attempts <= 0
    ensures Resume(noted, tries, Retry(name, s, attempts)) == Retried(false, tries, noted + [Skipping(name)], s)
  {
  }

  /** When the retry loop stops, its account, with the skip notice of a
      file that never went through, is the outcome of `Retry`. */
  lemma RetryClosed(st0: ClientState, st: ClientState, st': ClientState, file: LocalFile, attempts: int, ok: bool,
                    noted: seq<Note>, tries: nat, block: seq<Tick>, total: Retried)
    requires RetryKept(st0, st, file, attempts, ok, noted, tries, block, total)
    requires (attempts <= 0 || ok) && total == Retry(file.name, st0.inbound, 3)
    requires st' == if ok then st else st.(log := st.log + [Skipping(file.name)])
    ensures ok == total.ok && st'.inbound == total.rest && st'.log == st0.log + total.notes
    ensures st'.outbound == st0.outbound + Repeat(UploadFrame(file.name, file.content), total.tries)
    ensures st'.ticks == st0.ticks + block && Bounded(block, |file.content|)
    ensures st'.fileList == st0.fileList && st'.local == st0.local
  {
    if !ok {
      RetryExhausted(file.name, st.inbound, attempts, noted, tries);
      Regroup(st0.log, noted, [Skipping(file.name)]);
    }
  }

  /** Every tick reports `total` and a count in 1..total. */
  predicate Bounded(ticks: seq<Tick>, total: int) {
    forall i :: 0 <= i < |ticks| ==> ticks[i].total == total && 0 < ticks[i].current <= total
  }

  /** The ticks of a complete transfer stay within its size. */
  lemma ClimbBounded(block: seq<Tick>, total: int)
    requires Climb(block, total, total) && total >= 0
    ensures Bounded(block, total)
  {
    if total > 0 {
      ClimbPercents(block, total);
    }
  }

  lemma BoundedAppend(a: seq<Tick>, b: seq<Tick>, total: int)
    requires Bounded(a, total) && Bounded(b, total)
    ensures Bounded(a + b, total)
  {
  }

  lemma DownloadedByLoop(st: ClientState, name: string, size: int, rest: Stream, k: nat, block: seq<Tick>, st': ClientState)
    requires ReadLong(st.inbound) == GotLong(size, rest) && size != -1
    requires ReceivableCount(size, rest, k) && k <= RunLength(rest)
    requires st'.outbound == st.outbound + [Line(CommandLine(Download(name)))] && st'.fileList == st.fileList
    requires st'.inbound == rest[k..] && st'.local == st.local[name := Payload(rest, k)]
    requires st'.log == st.log + [if ReceiveBroken(size, rest, k) then DownloadFailed(name) else Downloaded(name)]
    requires st'.ticks == st.ticks + block && Climb(block, size, k)
    ensures DownloadedFile(st, name, st')
  {
    PayloadByLoop(st, name, size, rest, k, block, st');
    assert ReadLong(st.inbound).GotLong? && ReadLong(st.inbound).value == size && ReadLong(st.inbound).rest == rest;
  }

  lemma PayloadByLoop(st: ClientState, name: string, size: int, rest: Stream, k: nat, block: seq<Tick>, st': ClientState)
    requires ReceivableCount(size, rest, k) && k <= RunLength(rest)
    requires st'.inbound == rest[k..] && st'.local == st.local[name := Payload(rest, k)]
    requires st'.log == st.log + [if ReceiveBroken(size, rest, k) then DownloadFailed(name) else Downloaded(name)]
    requires st'.ticks == st.ticks + block && Climb(block, size, k)
    ensures DownloadedPayload(st, name, size, rest, st')
  {
    assert |rest| - |st'.inbound| == k;
    TickedBy(st.ticks, block, size, k);
  }

  class FtpClient {
    var inbound: Stream
    var outbound: seq<Token>
    var fileList: seq<string>
    var local: Directory
    var log: seq<Note>
    var ticks: seq<Tick>

    function State(): ClientState
      reads this
    {
      ClientState(inbound, outbound, fileList, local, log, ticks)
    }

    /** `connectToServer` once the socket is open: an empty list, an
        existing download folder, and the message that it connected. */
    constructor (inbound: Stream, local: Directory)
      ensures State() == ClientState(inbound, [], [], local, [Connected], [])
    {
      this.inbound := inbound;
      this.outbound := [];
      this.fileList := [];
      this.local := local;
      this.log := [Connected];
      this.ticks := [];
    }

    method ListFiles() returns (outcome: ListOutcome)
      modifies this
      ensures var c := Collect(old(inbound));
        outcome == c.outcome && fileList == c.names && inbound == c.rest
      ensures outbound == old(outbound) + [Line(CommandLine(List))]
      ensures log == old(log) + ListNotes(outcome)
      ensures local == old(local) && ticks == old(ticks)
    {
      outbound := outbound + [Line(CommandLine(List))];
      fileList := [];
      while true
        invariant var c := Collect(inbound);
          Collect(old(inbound)) == Collected(c.outcome, fileList + c.names, c.rest)
        invariant outbound == old(outbound) + [Line(CommandLine(List))]
        invariant log == old(log) && local == old(local) && ticks == old(ticks)
        decreases |inbound|
      {
        match ReadLine(inbound)
        case EndOfStream =>
          outcome := NoSentinel;
          return;
        case ReadFault =>
          log := log + [ListError];
          outcome := ServerDown;
          return;
        case GotLine(response) =>
          inbound := inbound[1..];
          if response == END_OF_LIST {
            log := log + [ListUpdated];
            outcome := ListDone;
            return;
          }
          assert fileList + [response] + Collect(inbound).names == fileList + ([response] + Collect(inbound).names);
          fileList := fileList + [response];
      }
    }

    /** `uploadFile`; `block` is the ticks it adds to the bar. */
    method UploadFile(file: LocalFile) returns (ok: bool, ghost block: seq<Tick>)
      modifies this
      ensures var v := ReadVerdict(file.name, old(inbound));
        ok == v.ok && inbound == v.rest && log == old(log) + [v.note]
      ensures outbound == old(outbound) + UploadFrame(file.name, file.content)
      ensures ticks == old(ticks) + block && Climb(block, |file.content|, |file.content|)
      ensures fileList == old(fileList) && local == old(local)
    {
      var header := [Line(CommandLine(Upload(file.name)))] + Raws(Encode64(|file.content|));
      outbound := outbound + header;
      block := SendContent(file.content);
      Regroup(old(outbound), header, Raws(file.content));
      assert UploadFrame(file.name, file.content) == header + Raws(file.content);
      ok := ReadReply(file.name);
    }

    /** The chunk loop of `uploadFile`: each `read` of the local file gives
        some non-empty part, which is written and ticks the bar. */
    method SendContent(content: Content) returns (ghost block: seq<Tick>)
      modifies this
      ensures outbound == old(outbound) + Raws(content)
      ensures ticks == old(ticks) + block && Climb(block, |content|, |content|)
      ensures inbound == old(inbound) && log == old(log)
      ensures fileList == old(fileList) && local == old(local)
    {
      block := [];
      var uploaded := 0;
      while uploaded < |content|
        invariant uploaded <= |content|
        invariant outbound == old(outbound) + Raws(content[..uploaded])
        invariant ticks == old(ticks) + block && Climb(block, |content|, uploaded)
        invariant inbound == old(inbound) && log == old(log)
        invariant fileList == old(fileList) && local == old(local)
      {
        var n := ChunkSize(|content| - uploaded);
        assert content[..uploaded] + content[uploaded..uploaded + n] == content[..uploaded + n];
        RawsAppend(content[..uploaded], content[uploaded..uploaded + n]);
        outbound := outbound + Raws(content[uploaded..uploaded + n]);
        uploaded := uploaded + n;
        Regroup(old(ticks), block, [Tick(uploaded, |content|)]);
        UpdateProgress(uploaded, |content|);
        ghost var prev := block;
        block := block + [Tick(uploaded, |content|)];
        ClimbStep(prev, block, |content|, uploaded - n, uploaded);
      }
      assert content[..uploaded] == content;
    }

    /** The reply line `uploadFile` waits for. */
    method ReadReply(name: string) returns (ok: bool)
      modifies this
      ensures var v := ReadVerdict(name, old(inbound));
        ok == v.ok && inbound == v.rest && log == old(log) + [v.note]
      ensures outbound == old(outbound) && ticks == old(ticks)
      ensures fileList == old(fileList) && local == old(local)
    {
      match ReadLine(inbound)
      case GotLine(response) =>
        inbound := inbound[1..];
        if response == UPLOAD_SUCCESS {
          log := log + [Uploaded(name)];
          ok := true;
        } else {
          log := log + [UploadFailed(name)];
          ok := false;
        }
      case EndOfStream =>
        log := log + [UploadFailed(name)];
        ok := false;
      case ReadFault =>
        log := log + [UploadError(name)];
        ok := false;
    }

    /** One turn of the per-file loop of `uploadFiles`, entered with the
        counter at `tested` before its decrement: an upload, then
        `Retrying` when it failed and the decremented counter is still
        positive. */
    method Attempt(file: LocalFile, tested: int) returns (ok: bool, ghost v: Verdict, ghost added: seq<Tick>)
      requires tested > 0
      modifies this
      ensures ok == v.ok && Attempted(old(State()), State(), file, tested, v, added)
    {
      v := ReadVerdict(file.name, inbound);
      ok, added := UploadFile(file);
      ClimbBounded(added, |file.content|);
      if !ok && tested - 1 > 0 {
        log := log + [Retrying(file.name)];
      }
    }

    /** `updateProgress(current, total)`: one more value for the bar. */
    method UpdateProgress(current: int, total: int)
      modifies this
      ensures ticks == old(ticks) + [Tick(current, total)]
      ensures inbound == old(inbound) && outbound == old(outbound) && log == old(log)
      ensures fileList == old(fileList) && local == old(local)
    {
      ticks := ticks + [Tick(current, total)];
    }

    /** The per-file loop of `uploadFiles`: an attempt runs while the
        counter, before its decrement, is positive and no attempt has
        succeeded; `Skipping` ends three failures. */
    method UploadWithRetry(file: LocalFile) returns (ok: bool, ghost block: seq<Tick>)
      modifies this
      ensures var r := Retry(file.name, old(inbound), 3);
        ok == r.ok && inbound == r.rest && log == old(log) + r.notes &&
        outbound == old(outbound) + Repeat(UploadFrame(file.name, file.content), r.tries)
      ensures ticks == old(ticks) + block && Bounded(block, |file.content|)
      ensures fileList == old(fileList) && local == old(local)
    {
      ghost var total := Retry(file.name, inbound, 3);
      ghost var tries := 0;
      ghost var noted: seq<Note> := [];
      block := [];
      assert total == Resume(noted, tries, Retry(file.name, inbound, 3));
      var attempts := 3;
      var uploadSuccessful := false;
      // The decrement of the last, failing test of `attempts-- > 0` is not
      // observable and is left out.
      while attempts > 0 && !uploadSuccessful
        invariant 0 <= attempts <= 3
        invariant RetryKept(old(State()), State(), file, attempts, uploadSuccessful, noted, tries, block, total)
      {
        ghost var st := State();
        ghost var v, added;
        uploadSuccessful, v, added := Attempt(file, attempts);
        RetryKeptTurn(old(State()), st, State(), file, attempts, noted, tries, block, total, v, added);
        noted := noted + ([v.note] + if !v.ok && attempts - 1 > 0 then [Retrying(file.name)] else []);
        block := block + added;
        tries := tries + 1;
        attempts := attempts - 1;
      }
      ghost var looped := State();
      if !uploadSuccessful {
        log := log + [Skipping(file.name)];
      }
      RetryClosed(old(State()), looped, State(), file, attempts, uploadSuccessful, noted, tries, block, total);
      ok := uploadSuccessful;
    }

    /** `uploadFiles`: each selected file in turn, with its retries. */
    method UploadFiles(files: seq<LocalFile>) returns (ghost blocks: seq<seq<Tick>>)
      modifies this
      ensures var b := Batch(files, old(inbound));
        log == old(log) + BatchNotes(b) && inbound == After(b, old(inbound)) &&
        outbound == old(outbound) + BatchSent(files, b)
      ensures |blocks| == |files| && ticks == old(ticks) + Concat(blocks)
      ensures forall i :: 0 <= i < |files| ==> Bounded(blocks[i], |files[i].content|)
      ensures fileList == old(fileList) && local == old(local)
    {
      blocks := [];
      for i := 0 to |files|
        invariant var b := Batch(files[..i], old(inbound));
          log == old(log) + BatchNotes(b) && inbound == After(b, old(inbound)) &&
          outbound == old(outbound) + BatchSent(files[..i], b)
        invariant |blocks| == i && ticks == old(ticks) + Concat(blocks)
        invariant BoundedBlocks(blocks, files)
        invariant fileList == old(fileList) && local == old(local)
      {
        ghost var b := Batch(files[..i], old(inbound));
        ghost var f := files[i];
        ghost var r := Retry(f.name, After(b, old(inbound)), 3);
        BatchSnoc(files, i, old(inbound));
        var ok, added := UploadWithRetry(files[i]);
        Regroup(old(ticks), Concat(blocks), added);
        BlocksSnoc(blocks, files, added);
        blocks := blocks + [added];
        Regroup(old(log), BatchNotes(b), r.notes);
        Regroup(old(outbound), BatchSent(files[..i], b), Repeat(UploadFrame(f.name, f.content), r.tries));
      }
      assert files[..|files|] == files;
      assert BoundedBlocks(blocks, files);
    }

    /** `downloadFile(name)`. */
    method DownloadFile(name: string)
      modifies this
      ensures DownloadedFile(old(State()), name, State())
    {
      ghost var before := State();
      outbound := outbound + [Line(CommandLine(Download(name)))];
      match ReadLong(inbound)
      case LongFailed(rest) =>
        inbound := rest;
        log := log + [DownloadFailed(name)];
      case GotLong(fileSize, rest) =>
        inbound := rest;
        if fileSize == -1 {
          log := log + [NotFound(name)];
          return;
        }
        var downloaded, broken, block := ReceiveDownload(name, fileSize);
        if broken {
          log := log + [DownloadFailed(name)];
        } else {
          log := log + [Downloaded(name)];
        }
        DownloadedByLoop(before, name, fileSize, rest, downloaded, block, State());
    }

    /** The loop of `downloadFile`: create the local file, then copy what
        each read returns into it, ticking the bar, until `size` bytes
        arrived or the stream ends. `broken` is the `IOException` of a read
        that meets a fault. What `fileOut` has written becomes the entry's
        content when the loop ends. */
    method ReceiveDownload(name: string, size: int) returns (downloaded: nat, broken: bool, ghost block: seq<Tick>)
      modifies this
      ensures ReceivableCount(size, old(inbound), downloaded)
      ensures downloaded <= RunLength(old(inbound)) && inbound == old(inbound)[downloaded..]
      ensures broken == ReceiveBroken(size, old(inbound), downloaded)
      ensures local == old(local)[name := Payload(old(inbound), downloaded)]
      ensures ticks == old(ticks) + block && Climb(block, size, downloaded)
      ensures outbound == old(outbound) && log == old(log) && fileList == old(fileList)
    {
      ghost var rest := inbound;
      block := [];
      var written: seq<Byte> := [];
      downloaded := 0;
      broken := false;
      while downloaded < size
        invariant downloaded <= RunLength(rest)
        invariant size <= 0 ==> downloaded == 0
        invariant inbound == rest[downloaded..]
        invariant written == Payload(rest, downloaded)
        invariant ticks == old(ticks) + block && Climb(block, size, downloaded)
        invariant local == old(local) && outbound == old(outbound)
        invariant log == old(log) && fileList == old(fileList)
        invariant !broken
        decreases |inbound|
      {
        if inbound == [] {
          break;
        }
        if !inbound[0].Raw? {
          broken := true;
          break;
        }
        Regroup(old(ticks), block, [Tick(downloaded, size)]);
        downloaded, written, block := ReceiveChunk(size, rest, downloaded, written, block);
      }
      RunAfter(rest, downloaded);
      local := local[name := written];
    }

    /** One pass of the download loop that finds bytes waiting: a `read`
        takes some of them, they are appended to what was written, and
        `updateProgress` reports the new count. */
    method ReceiveChunk(size: int, ghost rest: seq<Token>, downloaded: nat, written: seq<Byte>, ghost block: seq<Tick>)
      returns (downloaded': nat, written': seq<Byte>, ghost block': seq<Tick>)
      modifies this
      requires downloaded <= RunLength(rest) && inbound == rest[downloaded..]
      requires inbound != [] && inbound[0].Raw?
      requires written == Payload(rest, downloaded) && Climb(block, size, downloaded)
      ensures downloaded < downloaded' <= RunLength(rest) && inbound == rest[downloaded'..]
      ensures written' == Payload(rest, downloaded')
      ensures block' == block + [Tick(downloaded', size)] && Climb(block', size, downloaded')
      ensures ticks == old(ticks) + [Tick(downloaded', size)]
      ensures local == old(local) && outbound == old(outbound)
      ensures log == old(log) && fileList == old(fileList)
    {
      var avail := inbound;
      RunAfter(rest, downloaded);
      var n := ChunkSize(RunLength(avail));
      PayloadSplit(rest, downloaded, downloaded + n);
      assert Payload(avail, n) == Payload(rest[downloaded..], n);
      written' := written + Payload(avail, n);
      inbound := avail[n..];
      downloaded' := downloaded + n;
      assert inbound == rest[downloaded'..];
      UpdateProgress(downloaded', size);
      block' := block + [Tick(downloaded', size)];
      ClimbStep(block, block', size, downloaded, downloaded');
    }

    /** `downloadFiles`: nothing selected is an error message; otherwise
        each selected name in turn. The ghost trace holds the state after
        each download. */
    method DownloadFiles(selected: seq<string>) returns (ghost trace: seq<ClientState>)
      modifies this
      ensures selected == [] ==> State() == old(State()).(log := old(log) + [SelectToDownload])
      ensures selected != [] ==>
        |trace| == |selected| + 1 && trace[0] == old(State()) && trace[|selected|] == State() &&
        forall i :: 0 <= i < |selected| ==> DownloadedFile(trace[i], selected[i], trace[i + 1])
    {
      trace := [State()];
      if selected == [] {
        log := log + [SelectToDownload];
        return;
      }
      for i := 0 to |selected|
        invariant |trace| == i + 1 && trace[0] == old(State()) && trace[i] == State()
        invariant forall j :: 0 <= j < i ==> DownloadedFile(trace[j], selected[j], trace[j + 1])
      {
        DownloadFile(selected[i]);
        trace := trace + [State()];
      }
    }

    /** `deleteFile`: nothing selected is an error message; otherwise the
        delete line is sent (no answer is awaited), reported as done, and
        the list is fetched again. */
    method DeleteFile(selected: Option<string>)
      modifies this
      ensures selected.None? ==> State() == old(State()).(log := old(log) + [SelectToDelete])
      ensures selected.Some? ==>
        var c := Collect(old(inbound));
        outbound == old(outbound) + [Line(CommandLine(Delete(selected.value))), Line(CommandLine(List))] &&
        fileList == c.names && inbound == c.rest &&
        log == old(log) + [Deleted(selected.value)] + ListNotes(c.outcome) &&
        local == old(local) && ticks == old(ticks)
    {
      match selected
      case None =>
        log := log + [SelectToDelete];
      case Some(fileName) =>
        outbound := outbound + [Line(CommandLine(Delete(fileName)))];
        log := log + [Deleted(fileName)];
        var outcome := ListFiles();
    }
  }
}
