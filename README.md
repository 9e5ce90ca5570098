# A verified model of a small Java FTP client and server

This project models the protocol engine of a two-class Java file-transfer
tool, FTPServerGUI.java and FTPClientGUI.java, with the Swing user interface,
sockets and threads stripped away. The server runs one `ClientHandler` per
connection. It reads control lines (`list`, `upload <name>`,
`download <name>`, `delete <name>`) and answers each one against its storage
directory. The client writes those lines and reads the answers from the same
connection.

- **Connection.** Each direction is one ordered stream of tokens. A token
  is a text line, a raw byte, or a `Fault`. A `Fault` is a transport failure
  at that point: every read that reaches it throws an `IOException`.
- **Length prefix.** Sizes travel as the eight big-endian bytes of Java's
  `DataOutputStream.writeLong`.
- **Chunked reads.** Every `read(buffer)` returns some non-empty part of the
  bytes available. Which part is left open, so every contract holds for
  every chunking.
- **Storage.** The server's directory and the client's download folder are
  maps from file name to bytes.

Modules:

- `Wire` (wire.dfy): bytes, the `writeLong`/`readLong` codec and its round
  trip, the token stream, `readLine`, `readLong`, and the counting rule that
  both bounded receive loops share.
- `Protocol` (protocol.dfy): the command lines, the server's prefix decoder,
  the list reply, the upload frame and the download reply.
- `Server` (server.dfy): the class `ClientHandler`. Its fields are the
  directory, the unread input and the written output. There is one method
  per handler and one for the `run` loop. Relational predicates (`Received`,
  `Handled`, `Step`) state each handler's effect, and lemmas prove what the
  effects guarantee.
- `ProgressBar` (progress.dfy): the percentage arithmetic of
  `updateProgress` in Java `long`/`int`, and the intended percentage.
- `Client` (client.dfy): the class `FtpClient`. Its fields are the
  connection, the file list, the download folder, the messages shown and
  the progress ticks. It has methods for listing, uploading with retries,
  downloading and deleting. Functions such as `Collect`, `ReadVerdict`,
  `Retry` and `Batch` specify these methods, and lemmas prove what they
  promise.
- `Exchange` (exchange.dfy): both sides together. Each line the client
  writes is served as its command. A list reply is read back as its names.
  An upload frame is stored whole and answered with success. A download
  reply lands whole in the download folder. A file uploaded and then
  downloaded comes back byte for byte.

## Model

| member | source | states |
|---|---|---|
| Wire.Encode64 | FTPClientGUI.java:158 | `writeLong(v)` is eight bytes whose big-endian unsigned value is v's 64-bit two's complement |
| Wire.Decode64 | FTPServerGUI.java:154 | `readLong` turns eight bytes into a `long` whose two's complement is the bytes' big-endian value |
| Wire.DecodeEncode64 | FTPClientGUI.java:208 | reading back what `writeLong` wrote gives the same value, for every `long` |
| Wire.EncodeDecode64 | FTPServerGUI.java:154 | every eight bytes are the encoding of the value `readLong` decodes from them |
| Wire.EncodeMinusOne | FTPServerGUI.java:190 | the "not found" value -1 is encoded as eight 0xFF bytes |
| Wire.ReadLine | FTPServerGUI.java:109 | `readLine` gives the next text line, `null` exactly at the end of the stream, and otherwise an `IOException` |
| Wire.ReadLong | FTPServerGUI.java:154 | `readLong` succeeds iff eight bytes are available, and then the stream is the value's encoding followed by the rest; otherwise the available bytes are consumed and the read fails |
| Wire.ReadLongOfEncode64 | FTPClientGUI.java:158 | a `writeLong(v)` followed by anything is read back as v, leaving exactly what followed |
| Wire.ChunkSize | FTPServerGUI.java:166 | one `read(buffer)` returns between one byte and all the bytes available |
| Wire.ReceivableCountBounds | FTPServerGUI.java:166-169 | a bounded receive loop takes no more than the bytes available; it stops short of the declared size only where the bytes run out; when it breaks, the next token is not a byte |
| Wire.ExactCount | FTPServerGUI.java:166-169 | exactly `size` bytes followed by anything but a byte: the loop takes exactly `size` bytes, those bytes, and does not break |
| Protocol.Decode | FTPServerGUI.java:123-136 | the prefixes are tried in the order list, upload, download, delete; the result is the `substring` exception exactly when an upload or delete line is shorter than 7 characters or a download line is shorter than 9 |
| Protocol.DecodeCommandLine | FTPServerGUI.java:124-135 | each line the client writes (`list`, `upload n`, `download n`, `delete n`, `exit`) decodes to the command it was written for |
| Protocol.DecodeOrder | FTPServerGUI.java:124-128 | a line starting with `list` is a listing whatever follows; a line starting with `upload` is an upload of the text from index 7, or the exception |
| Protocol.DecodeDropsSeparator | FTPServerGUI.java:127-133 | the character after the verb is dropped whatever it is, and the name is everything after it |
| Protocol.DecodeBareVerb | FTPServerGUI.java:127-133 | a bare `upload`, `download` or `delete` throws; `exit` is dropped without effect |
| Protocol.ListReply | FTPServerGUI.java:144-148 | the list reply is one line per name, in order, then exactly one `END_OF_LIST` line |
| Protocol.UploadFrame | FTPClientGUI.java:157-169 | the upload frame is the line `upload <name>`, then an eight-byte prefix that reads back as the content length, then exactly the content |
| Protocol.DownloadReplyFraming | FTPServerGUI.java:189-201 | a missing file is answered by exactly eight 0xFF bytes, which read back as -1; a present file by its length, which reads back as the length, and then exactly its content |
| Server.ReceivedByLoop | FTPServerGUI.java:166-179 | a receive loop that took k bytes, followed by its verdict, is an upload as `Received` defines it |
| Server.Listed | FTPServerGUI.java:140-150 | the effect of `sendFileList`: the output grows by the list reply of some listing of the directory, and nothing else changes |
| Server.Stored | FTPServerGUI.java:166-181 | the end of an upload with a non-negative size: the entry holds the bytes received and no other entry changes; one verdict line, `UPLOAD_SUCCESS` iff the count is the size, `UPLOAD_ERROR` iff the loop stopped short on a failure, `UPLOAD_FAILED` otherwise |
| Server.Crashes | FTPServerGUI.java:125-133 | the next line is one on which `handleCommand` throws from `substring` |
| Server.ClientHandler.constructor | FTPServerGUI.java:95-97 | a new handler starts with the shared directory, the client's stream, and nothing written |
| Server.ClientHandler.ListDirectory | FTPServerGUI.java:141-142 | `dir.list()` yields every entry of the directory exactly once |
| Server.ClientHandler.SendFileList | FTPServerGUI.java:140-150 | the output grows by the list reply of some listing of the directory; nothing else changes |
| Server.ClientHandler.ReceiveFile | FTPServerGUI.java:152-184 | the handler performs the upload as `Received` defines it |
| Server.ClientHandler.ReceivePayload | FTPServerGUI.java:160-171 | the loop takes a count allowed by the shared counting rule; it consumes exactly those bytes and stores exactly them under the name; it breaks exactly when it stops short on a non-byte token |
| Server.ClientHandler.ReceiveChunk | FTPServerGUI.java:166-169 | one read that finds bytes takes between one and all of those waiting, consumes exactly them and appends exactly them to the file |
| Server.ClientHandler.SendFile | FTPServerGUI.java:186-208 | the output grows by exactly the download reply for the name; the directory and input are unchanged |
| Server.ClientHandler.DeleteFile | FTPServerGUI.java:210-217 | the directory loses the name, if present; nothing is written |
| Server.ClientHandler.HandleCommand | FTPServerGUI.java:123-136 | the handler throws exactly on the lines `Decode` rejects, changing nothing; otherwise the decoded command takes effect as `Handled` says |
| Server.ClientHandler.Run | FTPServerGUI.java:108-111 | the trace of sessions is a chain of `Step`s; only the last line can throw; `Closed` is reported only at the end of the stream and `Disconnected` only at a fault |
| Server.ReceiveExactFrame | FTPServerGUI.java:160-174 | a length n followed by exactly n bytes: the entry becomes those bytes, no other entry changes, the answer is `UPLOAD_SUCCESS`, and the rest is left unread |
| Server.ExactPayload | FTPServerGUI.java:166-174 | after a prefix of n, exactly n bytes followed by a non-byte give the entry those bytes and `UPLOAD_SUCCESS` |
| Server.ReceiveOutcome | FTPServerGUI.java:166-179 | for a non-negative size: the entry holds exactly the bytes received, even when incomplete; no other entry changes; exactly one verdict line is written: `UPLOAD_SUCCESS` iff the count equals the size, `UPLOAD_ERROR` iff the loop stopped short on a failure, and `UPLOAD_FAILED` in every other case (the stream ended early, or the last read overshot the size) |
| Server.PayloadOutcome | FTPServerGUI.java:166-179 | the receive loop after the prefix ends as `Stored` says, and the stored bytes are exactly the bytes it consumed |
| Server.ReceiveRejected | FTPServerGUI.java:154-158 | a negative size creates nothing and answers nothing, consuming only the eight bytes; an unreadable size answers `UPLOAD_ERROR` and leaves the directory unchanged |
| Server.DeleteOnlyThatEntry | FTPServerGUI.java:210-216 | delete removes only the named entry; a missing name leaves the directory unchanged; nothing is written |
| Server.ListedReply | FTPServerGUI.java:141-148 | the listing has one line per entry, each entry exactly once, then the single sentinel; an empty directory gets only the sentinel; nothing else changes |
| Server.ListReplyShape | FTPServerGUI.java:144-148 | the list reply of a listing of the directory has the shape of a listing reply |
| Server.UnknownLineIgnored | FTPServerGUI.java:123-136 | a line that no verb starts (`exit` among them) is consumed and dropped: no answer, no directory change |
| ProgressBar.WrapLong | FTPClientGUI.java:245 | the `long` Java keeps of a product: in range, congruent modulo 2^64, and equal when it already fits |
| ProgressBar.WrapInt | FTPClientGUI.java:245 | the `(int)` cast: in range, congruent modulo 2^32, and equal when it already fits |
| ProgressBar.JavaDiv | FTPClientGUI.java:245 | Java division rounds toward zero: for a positive divisor the quotient brackets the dividend from the side of zero |
| ProgressBar.BarValue | FTPClientGUI.java:245 | the value given to the bar is an `int` |
| ProgressBar.Percent | FTPClientGUI.java:245 | for 0 <= current <= total with total > 0, the percentage lies in 0..100; it is 100 iff current equals total; it is the floor of current*100/total |
| ProgressBar.BarValueWithoutOverflow | FTPClientGUI.java:245 | while current*100 fits in a `long`, the bar shows exactly the intended percentage |
| ProgressBar.BarValueOverflows | FTPClientGUI.java:245 | a complete transfer of 2^62 bytes shows 0 on the bar instead of 100 |
| ProgressBar.ClimbStep | FTPClientGUI.java:165-169 | one more non-empty chunk keeps the ticks strictly rising towards the total |
| ProgressBar.ClimbPercents | FTPClientGUI.java:165-169 | every tick of a transfer that reaches its total shows a count in 1..total and a percentage in 0..100, and the last one shows 100 |
| Client.CollectShape | FTPClientGUI.java:117-122 | the list is exactly the lines before the first `END_OF_LIST`, which is consumed; without a sentinel the list runs to the end of the stream or up to a failure |
| Client.ReadVerdict | FTPClientGUI.java:175-186 | an upload succeeds iff the reply line is exactly `UPLOAD_SUCCESS`; another line or the end of the stream is a failure; a fault is an error |
| Client.RetryTries | FTPClientGUI.java:134-143 | from a counter n, at most n attempts run; at least one runs when n is positive; all n run when none succeeds |
| Client.RetryLast | FTPClientGUI.java:138-147 | the last message is `Uploaded` iff an attempt succeeded and `Skipping` iff none did |
| Client.RetryEarly | FTPClientGUI.java:138-147 | neither `Uploaded` nor `Skipping` appears before the last message, so the attempts stop at the first success |
| Client.RetryCount | FTPClientGUI.java:140-142 | `Retrying` is logged after every failed attempt but the last |
| Client.RetryBounds | FTPClientGUI.java:134-147 | one to three attempts per file; three when all fail; `Skipping` iff all fail; at most two `Retrying` messages |
| Client.BatchOrder | FTPClientGUI.java:134 | the files are handled in selection order, each retry loop reading what the previous file's loop left |
| Client.BatchSnoc | FTPClientGUI.java:134-148 | one more file extends the batch by its retry loop, its messages and its frames |
| Client.BlocksSnoc | FTPClientGUI.java:168 | one more file's progress ticks, each within that file's size, extend the batch's ticks |
| Client.ClimbBounded | FTPClientGUI.java:165-169 | the ticks of a complete upload each report a count between 1 and the file length |
| Client.BatchLast | FTPClientGUI.java:134-148 | adding a file to the selection keeps the loops of the earlier files, and the new file's loop reads what they left |
| Client.BatchAt | FTPClientGUI.java:134 | each earlier file's retry loop still reads exactly what the files before it left |
| Client.BatchSentSnoc | FTPClientGUI.java:134-148 | one more file adds exactly its upload frame once per attempt to what the batch wrote |
| Client.RetryAdvance | FTPClientGUI.java:138-142 | a failed attempt, with the counter still positive, moves the retry loop one turn on |
| Client.RetrySucceeds | FTPClientGUI.java:138-139 | a successful attempt ends the retry loop |
| Client.RetryExhausted | FTPClientGUI.java:145-147 | a spent counter ends the loop with `Skipping` |
| Client.DownloadedByLoop | FTPClientGUI.java:214-226 | a receive loop that took k bytes, followed by its message, is a download as `DownloadedFile` defines it |
| Client.PayloadByLoop | FTPClientGUI.java:214-226 | after a size other than -1, a loop that took k bytes, stored exactly them, logged its message and ticked once per chunk meets `DownloadedPayload` |
| Client.TickedBy | FTPClientGUI.java:219-223 | one loop's ticks appended after the earlier ones keep them and add a climb to the count |
| Client.DownloadedExact | FTPClientGUI.java:214-226 | a size followed by exactly that many bytes and then no byte: the local file holds exactly those bytes, the download is reported done, and the rest is left unread |
| Client.CollectHead | FTPClientGUI.java:119-121 | a line other than the sentinel is added to the list and reading goes on |
| Wire.ReceivableCount | FTPServerGUI.java:166 | the counts a bounded receive loop can reach (also FTPClientGUI.java:219): everything available when fewer than the size are there, none for a size that is not positive, otherwise from the size up to what is available |
| Protocol.LinesAppend | FTPServerGUI.java:144-146 | the lines of two lists of names, one after the other, are the lines of the joined list |
| Protocol.CommandLine | FTPClientGUI.java:117 | the control line the client writes for each command: `list`, `upload <name>` (line 157), `download <name>` (line 207), `delete <name>` (line 239) and `exit` (line 250) |
| Protocol.DownloadReply | FTPServerGUI.java:189-201 | the answer to `download`: the eight bytes of the length and the file's bytes, or the eight bytes of -1 for a missing file |
| Server.UploadVerdict | FTPServerGUI.java:173-181 | the verdict line after the receive loop: `UPLOAD_ERROR` when the loop broke on an exception, else `UPLOAD_SUCCESS` when the count equals the size, else `UPLOAD_FAILED` |
| Server.Received | FTPServerGUI.java:152-184 | the effect of `receiveFile`: an unreadable size answers `UPLOAD_ERROR`; a negative size consumes only the prefix; otherwise a receivable count of bytes is stored and its verdict written |
| Server.Handled | FTPServerGUI.java:123-136 | the effect of each decoded command on the session: list, upload, download, delete, and no effect for any other line |
| Server.Step | FTPServerGUI.java:109-111 | one turn of `run`: read a line, drop it when it decodes to nothing, otherwise handle its command; no turn at the end of the stream or at a fault |
| Client.Collect | FTPClientGUI.java:119-122 | the read loop of `listFiles`: lines up to the sentinel, the end of the stream, or a failure |
| Client.Retry | FTPClientGUI.java:135-147 | the retry loop of one file from a counter: read a verdict per attempt, log `Retrying` after a failure with the counter still positive, stop at the first success, and log `Skipping` when the counter is spent |
| Client.Batch | FTPClientGUI.java:134 | the retry loops of all selected files, each starting on the stream the previous one left |
| Client.DownloadedFile | FTPClientGUI.java:205-230 | the effect of `downloadFile`: an unreadable size is `Download failed`; -1 is `not found`; otherwise a receivable count of bytes becomes the local file, with one tick per chunk |
| Client.RetryTurn | FTPClientGUI.java:138-142 | one attempt's verdict moves the retry loop on: a success settles it, a failure continues it from the counter less one |
| Client.RetryKeptTurn | FTPClientGUI.java:138-142 | one attempt keeps the loop's account: the messages, the frames sent, the ticks within the file length, and the outcome still to come |
| Client.RetryClosed | FTPClientGUI.java:145-147 | when the loop stops, its account, with `Skipping` for a file that never went through, is exactly the outcome of `Retry` |
| Client.FtpClient.constructor | FTPClientGUI.java:97-105 | a client whose connection opened starts with an empty list, no ticks and the single message that it connected |
| Client.FtpClient.ListFiles | FTPClientGUI.java:115-127 | writes `list`; the file list is replaced by the collected lines; reports `File list updated` at the sentinel and the server-down error on a fault |
| Client.FtpClient.UploadFile | FTPClientGUI.java:155-187 | writes exactly the upload frame; returns and logs the verdict of the reply; the ticks rise strictly to the file length, and an empty file gives no tick |
| Client.FtpClient.SendContent | FTPClientGUI.java:165-169 | writes exactly the content in order; one tick per chunk, strictly rising, the last one at the length |
| Client.FtpClient.UpdateProgress | FTPClientGUI.java:244-246 | each call records exactly one tick with its count and total and changes nothing else |
| Client.FtpClient.Attempt | FTPClientGUI.java:138-142 | one attempt writes exactly one upload frame, returns the verdict of the reply and logs it, then logs `Retrying` iff it failed with the counter still positive; its ticks stay within the file length |
| Client.FtpClient.ReadReply | FTPClientGUI.java:175-186 | reads one reply line and returns and logs its verdict |
| Client.FtpClient.UploadWithRetry | FTPClientGUI.java:135-147 | behaves as `Retry` from counter 3: the frame is sent once per attempt, the messages are the retry loop's, and the ticks stay within the file length |
| Client.FtpClient.UploadFiles | FTPClientGUI.java:134-148 | behaves as `Batch`: the files are handled in order, each with its retry loop, its messages and its frames; each file's ticks stay within its length |
| Client.FtpClient.DownloadFile | FTPClientGUI.java:205-230 | performs the download as `DownloadedFile` defines it: -1 is `not found` with no file and no tick; otherwise the local file holds exactly the bytes received and the ticks rise to the count |
| Client.FtpClient.ReceiveDownload | FTPClientGUI.java:214-225 | the loop takes a count allowed by the shared counting rule, stores exactly those bytes, and ticks once per chunk, strictly rising |
| Client.FtpClient.ReceiveChunk | FTPClientGUI.java:219-223 | one read that finds bytes takes between one and all of those waiting, appends exactly them to the file, and adds one tick higher than the last |
| Client.FtpClient.DownloadFiles | FTPClientGUI.java:191-203 | nothing selected gives only the error message; otherwise each selected name is downloaded in order |
| Client.FtpClient.DeleteFile | FTPClientGUI.java:232-242 | nothing selected gives only the error message; otherwise it writes `delete <name>`, reports the deletion without waiting for an answer, and lists again |
| Exchange.ServeCommandLine | FTPServerGUI.java:123-136 | any command line the client writes is served by the handler as exactly that command |
| Exchange.DeleteRoundTrip | FTPServerGUI.java:210-216 | `delete <name>` from the client removes exactly that entry and writes nothing |
| Exchange.CollectListReply | FTPClientGUI.java:117-122 | the client reads a list reply back as exactly its names, in order, and stops right after the sentinel, provided no name is `END_OF_LIST` |
| Exchange.CollectLines | FTPClientGUI.java:120-121 | lines other than the sentinel are collected in order before whatever follows |
| Exchange.SentinelNameTruncates | FTPClientGUI.java:120 | a file named `END_OF_LIST` ends the client's list early, leaving the rest of the reply unread |
| Exchange.DownloadServed | FTPServerGUI.java:129-131 | `download <name>` leaves the directory and the rest of the input alone and writes exactly the file's download reply |
| Exchange.UploadThenServe | FTPServerGUI.java:108-110 | an upload frame followed by `download` of the same name: the worker's two turns store the file, answer `UPLOAD_SUCCESS`, then write the stored file's download reply |
| Exchange.VerdictThenDownload | FTPClientGUI.java:175-226 | the client reads `UPLOAD_SUCCESS` as an upload of the name, then reads the following download reply into exactly the server's file |
| Exchange.UploadThenDownload | FTPClientGUI.java:155-226 | a file uploaded and then downloaded by the client: the server's entry is the file's content, the client reads success, and the downloaded local file equals the uploaded content byte for byte |
| Exchange.UploadServed | FTPServerGUI.java:152-174 | the server serves the client's upload frame by storing exactly the file under its name and answering `UPLOAD_SUCCESS` |
| Exchange.DownloadRoundTrip | FTPClientGUI.java:205-226 | the server's download reply, read by the client, puts exactly the server's file in the download folder as `Downloaded`; a missing file is `not found` and nothing local changes |

## Left out

- The Swing interface (windows, buttons, dialogs, the log area and the bar
  itself) and `SwingUtilities.invokeLater`. Messages and dialogs become
  `Note` values, and each call of `updateProgress` becomes a `Tick`.
- Threads: the accept loop, one thread per connection, the unsynchronised
  `running` flag and the client's background threads. Each connection and
  each batch is modelled sequentially. Handlers that share a directory
  concurrently are not modelled.
- Socket creation, stream wrapping and closing, `exitApplication`, and
  `System.exit`. The `exit` line itself is the `Other` command, which the
  server drops.
- The double buffering of one socket input by a `BufferedReader` and a
  `DataInputStream`. The model reads one shared ordered stream. A binary
  read that meets a text line, or a `readLine` that meets raw bytes, is
  treated like a transport failure, because text has no byte form here.
- Charsets: lines are strings.
- File-system details: paths (including `../` in names), `new File`,
  failing file creation, a failing `file.delete()` (the server's delete is
  always a success here), unreadable directories (`dir.list()` returning
  `null`), and failures while reading a local file or writing to the
  socket. The client's writes always succeed in this model.
- The buffer sizes 131072 and 65536: every read returns some non-empty part
  of what is available.
- A `receiveFile` or `downloadFile` loop writes the file chunk by chunk. The
  model installs the written bytes when the loop ends, since no sequential
  step can observe the file in between.
- Streams and files are at most 2^63 - 1 units long (a Java `long`
  counter). Counts near that bound, where `receivedBytes` would wrap, are
  not modelled.
- Client.FtpClient.UploadWithRetry: the final test of `attempts-- > 0`
  still decrements the counter, which nothing reads afterwards; the
  model's loop omits that decrement.
- Client.FtpClient.UploadFiles: the file chooser is left out; the selected
  files are the method's parameter.
- Client.FtpClient.ListFiles: when the stream ends before the sentinel,
  `null.equals` throws a `NullPointerException` that nothing catches. The
  model ends the operation there with no message.
- Server.ClientHandler.SendFileList: the order of `dir.list()` is the file
  system's choice, so the contract says "some listing of the directory".

## Findings

| source | as written | input that shows it | evidently intended | confidence | as-written member | corrected member |
|---|---|---|---|---|---|---|
| FTPClientGUI.java:245 | `(int) ((current * 100) / total)` multiplies in 64-bit `long` arithmetic before dividing, so the product wraps for files of more than (2^63 - 1) / 100 bytes | current = total = 2^62: the product wraps to 0 and the bar shows 0 for a complete transfer | the percentage `current * 100 / total` in 0..100, 100 exactly at completion | not executed | ProgressBar.BarValueOverflows | ProgressBar.Percent |
