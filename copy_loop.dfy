/** The copy loop of the upload handler, as values.

    The request body and the output file are modelled by a script: step i of
    the script says what the i-th Read of the body hands back (some bytes and
    how the read ended) and how the file system answers the Write of those
    bytes, if the handler issues one. `Copy` runs the loop over the script the
    way the handler does; `Reference` says, independently of the loop, what
    ends up on disk and in the counter; `CopyMatchesReference` connects them. */
module CopyLoop {

  /** An octet of the request body or of the output file. */
  newtype byte = x: int | 0 <= x < 256

  /** Size of the buffer the handler reads into. */
  const BufferSize: nat := 8192

  /** How a Read of the request body ends: more may follow, clean end of
      stream, or any other error (client gone, transport failure). */
  datatype ReadStatus = ReadOk | ReadEof | ReadError

  /** How the file system answers a Write of a chunk. A failed write may still
      leave the first `persisted` bytes of the chunk in the file. */
  datatype WriteOutcome = WriteOk | WriteFail(persisted: nat)

  /** One pass of the loop: what Read returns, and the answer to the Write. */
  datatype Step = Step(data: seq<byte>, status: ReadStatus, write: WriteOutcome)

  /** Every Read returns at most as many bytes as the buffer holds. */
  predicate FitsBuffer(body: seq<Step>)
  {
    forall i :: 0 <= i < |body| ==> |body[i].data| <= BufferSize
  }

  /** Where the loop is: still copying, or left it in one of three ways. */
  datatype Phase = Copying | Uploaded | WriteFailed | ReadFailed

  /** The bytes written to the file since it was opened, the counter, and
      the phase. */
  datatype CopyState = CopyState(written: seq<byte>, counted: nat, phase: Phase)

  /** The part of a chunk a write leaves in the file. */
  function Persisted(data: seq<byte>, w: WriteOutcome): (p: seq<byte>)
    ensures p <= data
    ensures w.WriteOk? ==> p == data
  {
    match w
    case WriteOk => data
    case WriteFail(k) => if k < |data| then data[..k] else data
  }

  /** One pass of the loop: bytes read are written (and counted when the
      write succeeds) before the read's status is looked at. */
  function CopyStep(s: CopyState, st: Step): (t: CopyState)
    requires s.phase == Copying
    ensures t.written == s.written + Persisted(st.data, st.write)
    ensures t.counted == if |st.data| > 0 && st.write.WriteFail? then s.counted else s.counted + |st.data|
    ensures t.phase == Copying <==> !StopsAt(st)
    ensures t.phase == WriteFailed <==> |st.data| > 0 && st.write.WriteFail?
    ensures t.phase == Uploaded <==> st.status == ReadEof && (|st.data| == 0 || st.write.WriteOk?)
  {
    var afterWrite :=
      if |st.data| == 0 then s
      else if st.write.WriteFail? then CopyState(s.written + Persisted(st.data, st.write), s.counted, WriteFailed)
      else CopyState(s.written + st.data, s.counted + |st.data|, Copying);
    if afterWrite.phase != Copying then afterWrite
    else
      match st.status
      case ReadOk => afterWrite
      case ReadEof => afterWrite.(phase := Uploaded)
      case ReadError => afterWrite.(phase := ReadFailed)
  }

  /** The loop run from state `s` over the rest of the script. */
  function CopyFrom(s: CopyState, body: seq<Step>): (r: CopyState)
    ensures s.written <= r.written && s.counted <= r.counted
    ensures r.counted - s.counted <= |r.written| - |s.written|
    ensures s.phase != Copying ==> r == s
    ensures r.phase == Copying ==> r.counted - s.counted == |r.written| - |s.written|
    decreases |body|
  {
    if body == [] || s.phase != Copying then s
    else CopyFrom(CopyStep(s, body[0]), body[1..])
  }

  /** Unfolding the loop once, at position `i` of the script. */
  lemma CopyFromUnfold(s: CopyState, body: seq<Step>, i: nat)
    requires s.phase == Copying && i < |body|
    ensures CopyFrom(s, body[i..]) == CopyFrom(CopyStep(s, body[i]), body[i + 1..])
  {
    assert body[i..][1..] == body[i + 1..];
  }

  /** The loop run from a freshly truncated file and a zero counter. */
  function Copy(body: seq<Step>): (r: CopyState)
    ensures r.counted <= |r.written|
    ensures r.phase == Copying ==> r.counted == |r.written|
  {
    CopyFrom(CopyState([], 0, Copying), body)
  }

  // ---------------------------------------------------------------------
  // An independent description of the result

  /** The concatenation of the bytes of every step. */
  function Flatten(body: seq<Step>): seq<byte>
  {
    if body == [] then [] else body[0].data + Flatten(body[1..])
  }

  /** Whether a step ends the loop: its Write fails, or its Read reports end
      of stream or an error. */
  predicate StopsAt(st: Step)
  {
    st.status != ReadOk || (|st.data| > 0 && st.write.WriteFail?)
  }

  /** The index of the first step that ends the loop, or |body| if none does. */
  function FirstStop(body: seq<Step>): (j: nat)
    ensures j <= |body|
    ensures forall i :: 0 <= i < j ==> !StopsAt(body[i])
    ensures j < |body| ==> StopsAt(body[j])
  {
    if body == [] then 0
    else if StopsAt(body[0]) then 0
    else 1 + FirstStop(body[1..])
  }

  /** The loop ends within the script: some step fails its write, or reports
      end of stream or a read error. */
  predicate Ends(body: seq<Step>)
  {
    FirstStop(body) < |body|
  }

  /** A script a real request body can produce, and on which the loop ends. */
  predicate WellFormedBody(body: seq<Step>)
  {
    FitsBuffer(body) && Ends(body)
  }

  /** What the loop leaves behind, stated without the loop: every byte of the
      steps before the first stopping step is written and counted; the
      stopping step's bytes are written too, and counted unless their write
      failed, in which case only the part the file system kept is there. */
  function Reference(body: seq<Step>): CopyState
  {
    var j := FirstStop(body);
    if j == |body| then CopyState(Flatten(body), |Flatten(body)|, Copying)
    else
      var before := Flatten(body[..j]);
      var st := body[j];
      if |st.data| > 0 && st.write.WriteFail? then
        CopyState(before + Persisted(st.data, st.write), |before|, WriteFailed)
      else
        CopyState(before + st.data, |before| + |st.data|,
                  if st.status == ReadEof then Uploaded else ReadFailed)
  }

  /** `Reference` shifted by what is already in the file and the counter. */
  function After(s: CopyState, r: CopyState): CopyState
  {
    CopyState(s.written + r.written, s.counted + r.counted, r.phase)
  }

  lemma FlattenCons(body: seq<Step>)
    requires body != []
    ensures Flatten(body) == body[0].data + Flatten(body[1..])
  {
  }

  lemma {:induction false} FlattenAppend(a: seq<Step>, b: seq<Step>)
    ensures Flatten(a + b) == Flatten(a) + Flatten(b)
    decreases |a|
  {
    if a == [] {
      assert a + b == b;
    } else {
      assert (a + b)[1..] == a[1..] + b;
      FlattenAppend(a[1..], b);
    }
  }

  /** Peeling a step that does not end the loop off the reference. */
  lemma ReferenceCons(body: seq<Step>)
    requires body != [] && !StopsAt(body[0])
    ensures Reference(body) == After(CopyState(body[0].data, |body[0].data|, Copying), Reference(body[1..]))
  {
    var rest := body[1..];
    var j := FirstStop(rest);
    assert FirstStop(body) == 1 + j;
    if j < |rest| {
      assert body[..1 + j] == [body[0]] + rest[..j];
      FlattenAppend([body[0]], rest[..j]);
      assert Flatten([body[0]]) == body[0].data;
    } else {
      FlattenCons(body);
    }
  }

  lemma AfterAssociative(a: CopyState, b: CopyState, c: CopyState)
    ensures After(After(a, b), c) == After(a, After(b, c))
  {
    assert (a.written + b.written) + c.written == a.written + (b.written + c.written);
  }

  /** A step that ends the loop leaves the state the reference gives. */
  lemma StoppingStepMatchesReference(s: CopyState, body: seq<Step>)
    requires s.phase == Copying && body != [] && StopsAt(body[0])
    ensures CopyStep(s, body[0]) == After(s, Reference(body))
  {
    assert FirstStop(body) == 0 && body[..0] == [];
  }

  /** The loop, run from any copying state, ends where the reference says. */
  lemma {:induction false} CopyFromMatchesReference(s: CopyState, body: seq<Step>)
    requires s.phase == Copying
    ensures CopyFrom(s, body) == After(s, Reference(body))
    decreases |body|
  {
    if body == [] {
      assert s.written + [] == s.written;
    } else {
      var t := CopyStep(s, body[0]);
      assert CopyFrom(s, body) == CopyFrom(t, body[1..]);
      if StopsAt(body[0]) {
        StoppingStepMatchesReference(s, body);
      } else {
        var head := CopyState(body[0].data, |body[0].data|, Copying);
        assert t == After(s, head);
        CopyFromMatchesReference(t, body[1..]);
        ReferenceCons(body);
        AfterAssociative(s, head, Reference(body[1..]));
      }
    }
  }

  /** The loop and the reference agree on every script. */
  lemma CopyMatchesReference(body: seq<Step>)
    ensures Copy(body) == Reference(body)
  {
    CopyFromMatchesReference(CopyState([], 0, Copying), body);
  }

  // ---------------------------------------------------------------------
  // Properties of the copy loop

  /** The loop leaves exactly when some step of the script ends it: it never
      runs out of a script that ends, and never stops early on one that does
      not. */
  lemma CopyEnds(body: seq<Step>)
    ensures Copy(body).phase != Copying <==> Ends(body)
  {
    CopyMatchesReference(body);
  }

  /** A clean upload: the step at `j` reports end of stream, every step
      before it reads without error, and every write up to it succeeds. */
  predicate CleanUpload(body: seq<Step>, j: nat)
  {
    j < |body| && body[j].status == ReadEof &&
    (forall i :: 0 <= i < j ==> body[i].status == ReadOk) &&
    (forall i :: 0 <= i <= j ==> |body[i].data| == 0 || body[i].write.WriteOk?)
  }

  /** A clean upload puts the whole body in the file, in order, and the
      counter then equals its length. */
  lemma CleanUploadStoresBody(body: seq<Step>, j: nat)
    requires CleanUpload(body, j)
    ensures Copy(body) == CopyState(Flatten(body[..j + 1]), |Flatten(body[..j + 1])|, Uploaded)
  {
    CopyMatchesReference(body);
    var k := FirstStop(body);
    assert StopsAt(body[j]);
    assert k == j;
    assert body[..j + 1] == body[..j] + [body[j]];
    FlattenAppend(body[..j], [body[j]]);
    assert Flatten([body[j]]) == body[j].data;
  }

  /** Conversely, the loop reports success only for a clean upload. */
  lemma UploadedOnlyWhenClean(body: seq<Step>)
    requires Copy(body).phase == Uploaded
    ensures CleanUpload(body, FirstStop(body))
  {
    CopyMatchesReference(body);
  }

  /** Whatever happens, the file holds a prefix of the body's bytes, in
      order; the counter never exceeds what is in the file, and equals it
      unless a write failed. */
  lemma CounterAccountsWrittenBytes(body: seq<Step>)
    ensures Copy(body).written <= Flatten(body)
    ensures Copy(body).counted <= |Copy(body).written|
    ensures Copy(body).phase != WriteFailed ==> Copy(body).counted == |Copy(body).written|
  {
    CopyMatchesReference(body);
    var j := FirstStop(body);
    if j < |body| {
      assert body == body[..j] + body[j..];
      FlattenAppend(body[..j], body[j..]);
      FlattenCons(body[j..]);
    }
  }

  /** Splitting off the last step of `pre + [last]` when no step of `pre`
      ends the loop. */
  lemma FirstStopOfLast(pre: seq<Step>, last: Step)
    requires forall i :: 0 <= i < |pre| ==> !StopsAt(pre[i])
    requires StopsAt(last)
    ensures FirstStop(pre + [last]) == |pre|
    ensures (pre + [last])[..|pre|] == pre
  {
    assert (pre + [last])[|pre|] == last;
    assert forall i :: 0 <= i < |pre| ==> (pre + [last])[i] == pre[i];
    assert (pre + [last])[..|pre|] == pre;
  }

  /** Bytes that come back together with end of stream or with a read error
      are written and counted before the status ends the loop. */
  lemma BytesWithFinalReadAreKept(pre: seq<Step>, last: Step)
    requires forall i :: 0 <= i < |pre| ==> !StopsAt(pre[i])
    requires last.status != ReadOk
    requires |last.data| == 0 || last.write.WriteOk?
    ensures Copy(pre + [last]) ==
            CopyState(Flatten(pre) + last.data, |Flatten(pre)| + |last.data|,
                      if last.status == ReadEof then Uploaded else ReadFailed)
  {
    CopyMatchesReference(pre + [last]);
    FirstStopOfLast(pre, last);
  }

  /** A failed write ends the loop without counting its chunk, and the bytes
      of the earlier chunks stay in the file. */
  lemma WriteFailureKeepsEarlierBytes(pre: seq<Step>, last: Step)
    requires forall i :: 0 <= i < |pre| ==> !StopsAt(pre[i])
    requires |last.data| > 0 && last.write.WriteFail?
    ensures Copy(pre + [last]) ==
            CopyState(Flatten(pre) + Persisted(last.data, last.write), |Flatten(pre)|, WriteFailed)
  {
    CopyMatchesReference(pre + [last]);
    FirstStopOfLast(pre, last);
  }

  lemma {:induction false} FlattenOfEmptyReads(body: seq<Step>)
    requires forall i :: 0 <= i < |body| ==> body[i].data == []
    ensures Flatten(body) == []
    decreases |body|
  {
    if body != [] {
      FlattenOfEmptyReads(body[1..]);
    }
  }

  /** An empty body, however many empty reads it takes to reach end of stream,
      leaves an empty file, a zero counter and success. */
  lemma EmptyBodyUploadsEmptyFile(pre: seq<Step>, last: Step)
    requires forall i :: 0 <= i < |pre| ==> pre[i].data == [] && pre[i].status == ReadOk
    requires last.data == [] && last.status == ReadEof
    ensures Copy(pre + [last]) == CopyState([], 0, Uploaded)
  {
    FlattenOfEmptyReads(pre);
    BytesWithFinalReadAreKept(pre, last);
  }
}
