# xhrpload upload handler, modelled in Dafny

xhrpload is a small HTTP file-upload relay. This project models its `/upload` handler. For each request the handler:

1. resets the process-wide byte counter `uploadedBytes`;
2. rejects any method other than POST with 405;
3. resolves the target as `Join(outputPath, Base(filename))`;
4. opens that file create-or-truncate, or answers 500 if it cannot;
5. copies the request body into the file through one 8192-byte buffer, writing the bytes of every read before it looks at that read's error, and adding each successfully written chunk to the counter;
6. maps clean end of stream to 200 and a write failure or any other read error to 500, each with its own message;
7. closes the file on every exit after a successful open. A failed close is only logged.

Two modules:

- `CopyLoop` (copy_loop.dfy) describes the copy loop as values. The body and the file system are given as a script of `Step`s. One step says what one `Read` returns (bytes plus `ReadOk`, `ReadEof` or `ReadError`) and how the file system answers the `Write` of those bytes. A failed write may leave part of its chunk on disk. `Copy` runs the loop's rules over the script. `Reference` says without any loop what ends up in the file and in the counter. `CopyMatchesReference` proves the two agree, and the other lemmas derive the handler's promises from that.
- `UploadHandler` (upload_handler.dfy) holds the handler itself: class `UploadServer`, whose fields are the file system (`disk`), the counter, the current file handle and the last response. `HandleUpload` follows the Go closure step by step. `CopyBody` is its `while` loop over an `array<byte>` buffer, and it is proved against `Copy`.

The outside world enters as parameters: whether the open succeeds, whether the close succeeds, and the body script. `filepath.Base` and `filepath.Join` are function-valued constants of the server, so the model promises only that the target is `join(outputPath, base(filename))`.

Two behaviours of the code worth noting:
- The counter is set to zero before the method check. So a rejected request, a 405 or an open failure, also resets it.
- The code does not reject an empty, `.` or `..` final component. Whatever `Base` returns is joined and opened.

## Model

| member | source | states |
|---|---|---|
| `UploadHandler.UploadServer.HandleUpload` | main.go:117-166 | Non-POST: 405, "Invalid request method\n", disk unchanged, no file opened, counter 0. Open failure: 500, "Unable to open output file\n", disk unchanged, counter 0. Otherwise the target file holds exactly `Copy(body).written` whatever it held before, the counter is `Copy(body).counted`, the status and text follow the loop's exit, and the file is closed. Status 200 implies the counter equals the file's length. |
| `UploadHandler.UploadServer.Target` | main.go:130-131 | The file a request writes is `join(outputPath, base(filename))`, with both path functions those the server was built with. |
| `UploadHandler.UploadServer.Pass` | main.go:146-161 | One pass over the array buffer leaves the file, the counter and the phase exactly as `CopyStep` says, and changes no other file. |
| `UploadHandler.UploadServer.CopyBody` | main.go:143-162 | The read/write loop over the 8192-byte buffer leaves the file, the counter and the exit phase exactly as `Copy` says, and changes no other file. |
| `UploadHandler.UploadServer.constructor` | main.go:19 | A fresh server has counter 0 (Go's zero value), no open file, and the given output directory, path functions and files. |
| `UploadHandler.Read` | main.go:144-146 | A read puts its `n` bytes at the front of the buffer and returns `n`. |
| `UploadHandler.ErrorText` | main.go:126 | The body `http.Error` sends is the message plus one line break. |
| `UploadHandler.StatusFor` | main.go:148-165 | The status is 200 exactly when the loop ended on clean end of stream. Every other exit is 500. |
| `UploadHandler.TextFor` | main.go:148-165 | The response text is "File uploaded successfully\n" on success, "Unable to write to output file\n" after a failed write, and "Error reading request body\n" after a read error. |
| `UploadHandler.ExitTextsDistinct` | main.go:126-165 | The success, write-failure and read-failure texts differ pairwise, and none equals the 405 text or the open-failure text, and the 405 and open-failure texts differ too, so a client can tell every exit apart from the body alone. |
| `UploadHandler.UploadTwice` | main.go:132 | Two uploads to the same name leave only the second upload's bytes in the file, never a concatenation. |
| `CopyLoop.CopyStep` | main.go:146-161 | Bytes from a read with n > 0 are written first, and only what the write kept lands in the file. They are counted only if the write succeeded. The read's status is looked at only after that. The pass ends the loop exactly when the step stops it; a write failure wins over the read status; success needs EOF and no failed write. |
| `CopyLoop.CopyFrom` | main.go:145-162 | Running the loop only appends to the file and only grows the counter, by no more than it appends (by exactly as much while still copying). Once the loop has been left, nothing changes. |
| `CopyLoop.Copy` | main.go:143-162 | The loop from a freshly truncated file and a zero counter: the counter never exceeds the bytes in the file, and equals them while copying. |
| `CopyLoop.Persisted` | main.go:148 | What a write leaves on disk is a prefix of its chunk, and the whole chunk when the write succeeds. |
| `CopyLoop.FirstStop` | main.go:145-162 | Returns the index of the first step that ends the loop (a failed write, end of stream or a read error): no earlier step ends it, and that step does. Returns the script length if no step ends the loop. |
| `CopyLoop.CopyFromMatchesReference` | main.go:143-162 | From any state, running the loop over the rest of the script appends to the file and adds to the counter exactly what `Reference` gives for that rest. |
| `CopyLoop.CopyMatchesReference` | main.go:143-162 | Starting from an empty file and a zero counter, the loop's result equals the loop-free `Reference`. |
| `CopyLoop.CopyEnds` | main.go:145-162 | The loop exits exactly when some step of the script ends it (a failed write, end of stream or a read error): it never runs out of such a script while still copying, and never exits on a script without one. |
| `CopyLoop.CleanUploadStoresBody` | main.go:145-157 | If every read up to end of stream succeeds and every write succeeds, the file holds the whole body in order, including bytes returned together with EOF. The counter equals the body's length and the exit is success. |
| `CopyLoop.UploadedOnlyWhenClean` | main.go:147-157 | Conversely, the loop reports success only for such a clean upload, ending at the first stopping step. |
| `CopyLoop.CounterAccountsWrittenBytes` | main.go:147-153 | On every exit the file holds a prefix of the body's bytes in order. The counter never exceeds the file's length, and equals it unless a write failed. |
| `CopyLoop.BytesWithFinalReadAreKept` | main.go:146-161 | Bytes returned together with EOF or with a read error are written and counted before that status ends the loop, with success for EOF and a read failure otherwise. |
| `CopyLoop.WriteFailureKeepsEarlierBytes` | main.go:148-152 | A failed write ends the loop. Earlier chunks stay in the file (no rollback), followed by whatever part of the failed chunk the file system kept. The failed chunk is not counted. |
| `CopyLoop.EmptyBodyUploadsEmptyFile` | main.go:145-157 | An empty body, however many empty reads come before EOF, leaves an empty file, a zero counter and success. |

## Left out

- The `/` route with its HTML and JavaScript page, flag parsing, and server start-up (`ListenAndServe`). These are static markup and process plumbing.
- Logging, including the final log line that reads the counter and the log line for a failed close. Because of this, `closeOk` affects nothing in the model: a close error never changes the response.
- Concurrency. The counter is modelled as an ordinary field for one request at a time, so the race between simultaneous uploads (`sync/atomic` on a shared counter) is not captured.
- UploadHandler.UploadServer.HandleUpload: does not model the `int64` wrap-around of `uploadedBytes`. It takes a body of at least 2^63 bytes to reach it.
- UploadHandler.UploadServer.HandleUpload: for a POST whose open succeeds (the only case in which the body is read), requires that the loop ends within the script (a failed write, end of stream or a read error). A body that never errors while every write succeeds keeps the Go loop running and is not modelled.
- The internals of `filepath.Base` and `filepath.Join`. They are abstract function parameters, so the model proves nothing about staying inside the output directory beyond `target == join(outputPath, base(filename))`.
- The internals of `os.OpenFile`, `io.Reader` and `http.ResponseWriter`. Open and close outcomes are parameters. Reads and writes are scripted, and every read returns at most the buffer's 8192 bytes, as `io.Reader` promises. Response headers such as `Content-Type` are not modelled.
- The query-string lookup `r.URL.Query().Get("filename")`. `Request.filename` is its result: already percent-decoded, the first of repeated values, and "" when the parameter is absent (which `Base` turns into ".").
- Symbolic links and path aliasing. Files are keyed by their path string, so "no other file changes" assumes that no two paths name the same file. `os.OpenFile` follows a symbolic link at the target, and two spellings of one path stay distinct in the model.
