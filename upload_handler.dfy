/** The `/upload` request handler: a server object whose state is the output
    directory's files, the shared byte counter, the file handle of the current
    request and the response of the last request. */
module UploadHandler {
  import opened CopyLoop

  /** An incoming request: its HTTP method (`verb`), the `filename` query value and
      the script of its body. */
  datatype Request = Request(verb: string, filename: string, body: seq<Step>)

  /** The output file of the current request, as the handler sees it. */
  datatype FileHandle = NoFile | Open(path: string) | Closed(path: string)

  const MethodNotAllowed: int := 405
  const InternalServerError: int := 500
  const StatusOk: int := 200

  const InvalidMethodMessage: string := "Invalid request method"
  const OpenFailedMessage: string := "Unable to open output file"
  const WriteFailedMessage: string := "Unable to write to output file"
  const ReadFailedMessage: string := "Error reading request body"
  const SuccessText: string := "File uploaded successfully\n"

  /** The text `http.Error` sends: the message and a line break. */
  function ErrorText(message: string): (t: string)
    ensures |t| == |message| + 1 && t[..|message|] == message && t[|message|] == '\n'
  {
    message + "\n"
  }

  /** The status code and text that end a request whose copy loop left in
      phase `p`. */
  function StatusFor(p: Phase): (code: int)
    requires p != Copying
    ensures code == StatusOk <==> p == Uploaded
    ensures code != StatusOk ==> code == InternalServerError
  {
    if p == Uploaded then StatusOk else InternalServerError
  }

  function TextFor(p: Phase): (t: string)
    requires p != Copying
    ensures p == Uploaded ==> t == SuccessText
    ensures p == WriteFailed ==> t == ErrorText(WriteFailedMessage)
    ensures p == ReadFailed ==> t == ErrorText(ReadFailedMessage)
  {
    match p
    case Uploaded => SuccessText
    case WriteFailed => ErrorText(WriteFailedMessage)
    case ReadFailed => ErrorText(ReadFailedMessage)
  }

  /** The three ways a copy can end get three different response texts,
      none of them is the text of a rejected method or a failed open, and
      those two differ as well: every exit has its own text. */
  lemma ExitTextsDistinct(p: Phase, q: Phase)
    requires p != Copying && q != Copying
    ensures TextFor(p) == TextFor(q) ==> p == q
    ensures TextFor(p) != ErrorText(InvalidMethodMessage)
    ensures TextFor(p) != ErrorText(OpenFailedMessage)
    ensures ErrorText(InvalidMethodMessage) != ErrorText(OpenFailedMessage)
  {
    // The texts differ in their first letter, except the two "Unable to"
    // messages, which differ in their eleventh.
    assert ErrorText(InvalidMethodMessage)[0] == 'I';
    assert ErrorText(OpenFailedMessage)[0] == 'U' && ErrorText(OpenFailedMessage)[10] == 'o';
    assert TextFor(Uploaded)[0] == 'F';
    assert TextFor(WriteFailed)[0] == 'U' && TextFor(WriteFailed)[10] == 'w';
    assert TextFor(ReadFailed)[0] == 'E';
  }

  /** Hands the bytes of one scripted Read to the caller's buffer. */
  method Read(buffer: array<byte>, st: Step) returns (n: nat)
    requires |st.data| <= buffer.Length
    modifies buffer
    ensures n == |st.data| && buffer[..n] == st.data
  {
    n := |st.data|;
    forall k | 0 <= k < n {
      buffer[k] := st.data[k];
    }
  }

  class UploadServer {
    /** The configured output directory. */
    const outputPath: string
    /** The platform's `filepath.Base` and `filepath.Join`. */
    const base: string -> string
    const join: (string, string) -> string

    /** The files of the file system, by path. */
    var disk: map<string, seq<byte>>
    /** The process-wide count of bytes uploaded by the current request. */
    var uploadedBytes: int
    var file: FileHandle
    /** The response of the last request. */
    var status: int
    var responseText: string

    constructor (outputPath: string, base: string -> string, join: (string, string) -> string,
                 disk: map<string, seq<byte>>)
      ensures this.outputPath == outputPath && this.base == base && this.join == join
      ensures this.disk == disk && uploadedBytes == 0 && file == NoFile
      ensures status == 0 && responseText == ""
    {
      this.outputPath := outputPath;
      this.base := base;
      this.join := join;
      this.disk := disk;
      uploadedBytes := 0;
      file := NoFile;
      status := 0;
      responseText := "";
    }

    /** The file a request writes: the last component of its filename,
        inside the output directory. */
    function Target(filename: string): (path: string)
      reads this
    {
      join(outputPath, base(filename))
    }

    /** One pass of the loop: read into the buffer, write the bytes read if
        there are any, count them if the write succeeded, and only then look
        at the read's status. */
    method Pass(target: string, buffer: array<byte>, st: Step) returns (phase: Phase)
      requires |st.data| <= buffer.Length && target in disk && 0 <= uploadedBytes
      modifies this`disk, this`uploadedBytes, buffer
      ensures target in disk && disk == old(disk)[target := disk[target]] && 0 <= uploadedBytes
      ensures CopyState(disk[target], uploadedBytes, phase) ==
              CopyStep(CopyState(old(disk[target]), old(uploadedBytes), Copying), st)
    {
      phase := Copying;
      var n := Read(buffer, st);
      if n > 0 {
        match st.write
        case WriteFail(_) =>
          disk := disk[target := disk[target] + Persisted(buffer[..n], st.write)];
          phase := WriteFailed;
        case WriteOk =>
          disk := disk[target := disk[target] + buffer[..n]];
          uploadedBytes := uploadedBytes + n;
      }
      if phase == Copying {
        match st.status
        case ReadOk =>
        case ReadEof => phase := Uploaded;
        case ReadError => phase := ReadFailed;
      }
    }

    /** The read/write loop over the body of a request whose target file has
        just been opened and truncated, with the counter at zero. */
    method CopyBody(target: string, body: seq<Step>) returns (phase: Phase)
      requires FitsBuffer(body) && Copy(body).phase != Copying
      requires target in disk && disk[target] == [] && uploadedBytes == 0
      modifies this`disk, this`uploadedBytes
      ensures phase == Copy(body).phase
      ensures disk == old(disk)[target := Copy(body).written]
      ensures uploadedBytes == Copy(body).counted
    {
      var buffer := new byte[BufferSize];
      phase := Copying;
      var i := 0;
      while phase == Copying
        invariant 0 <= i <= |body|
        invariant target in disk && disk == old(disk)[target := disk[target]]
        invariant 0 <= uploadedBytes
        invariant CopyFrom(CopyState(disk[target], uploadedBytes, phase), body[i..]) == Copy(body)
        invariant phase == Copying ==> i < |body|
        decreases |body| - i
      {
        CopyFromUnfold(CopyState(disk[target], uploadedBytes, phase), body, i);
        phase := Pass(target, buffer, body[i]);
        i := i + 1;
      }
    }

    /** Handles one request to `/upload`. `openOk` is whether the file system
        lets the target be opened; `closeOk` is whether closing it succeeds. */
    method HandleUpload(r: Request, openOk: bool, closeOk: bool)
      requires r.verb == "POST" && openOk ==> WellFormedBody(r.body)
      modifies this
      ensures r.verb != "POST" ==>
                status == MethodNotAllowed && responseText == ErrorText(InvalidMethodMessage) &&
                disk == old(disk) && file == NoFile && uploadedBytes == 0
      ensures r.verb == "POST" && !openOk ==>
                status == InternalServerError && responseText == ErrorText(OpenFailedMessage) &&
                disk == old(disk) && file == NoFile && uploadedBytes == 0
      ensures r.verb == "POST" && openOk ==>
                var t := Target(r.filename);
                var c := Copy(r.body);
                c.phase != Copying &&
                disk == old(disk)[t := c.written] && uploadedBytes == c.counted &&
                file == Closed(t) && status == StatusFor(c.phase) && responseText == TextFor(c.phase)
      ensures !file.Open?
      ensures status == StatusOk ==>
                r.verb == "POST" && openOk && uploadedBytes == |disk[Target(r.filename)]|
    {
      uploadedBytes := 0;
      file := NoFile;

      if r.verb != "POST" {
        status, responseText := MethodNotAllowed, ErrorText(InvalidMethodMessage);
        return;
      }

      var target := join(outputPath, base(r.filename));
      if !openOk {
        status, responseText := InternalServerError, ErrorText(OpenFailedMessage);
        return;
      }
      // Create or truncate.
      disk := disk[target := []];
      file := Open(target);

      CopyEnds(r.body);
      var phase := CopyBody(target, r.body);
      status, responseText := StatusFor(phase), TextFor(phase);
      // Deferred close: runs on every exit after a successful open; a
      // failing close is only logged.
      file := Closed(target);
      CounterAccountsWrittenBytes(r.body);
    }
  }

  /** Two uploads under the same name: the file ends up holding only what
      the second one wrote, because opening truncates. */
  method UploadTwice(s: UploadServer, first: seq<Step>, second: seq<Step>, filename: string)
    requires WellFormedBody(first) && WellFormedBody(second)
    modifies s
    ensures s.disk == old(s.disk)[s.Target(filename) := Copy(second).written]
  {
    s.HandleUpload(Request("POST", filename, first), true, true);
    s.HandleUpload(Request("POST", filename, second), true, true);
  }
}
