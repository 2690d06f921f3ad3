/** Chunked retrieval of exported files: the reassembly loop against any server, and
    against the one that slices a file. */
module ExportFetch {
  import opened Rows

  type Byte = bv8

  const MAX_CHUNK_BYTES: nat := 262144

  /** One decoded export_read response. */
  datatype Response = Response(totalSize: int, sha256: string, chunk: seq<Byte>, eof: bool)

  /** What call number k of a fetch gets, given file, offset and limit; None when the call
      raises. */
  type Server = (string, nat, nat, nat) -> Option<Response>

  datatype File = File(filename: string, content: seq<Byte>, declaredSize: int, declaredSha256: string)

  datatype FetchError = BadLimit | CallFailed | DeclarationChanged | EmptyChunk | LengthMismatch

  datatype Fetched<+T> = Got(value: T) | Failed(error: FetchError)

  // ----- the conversation -----

  /** The bytes received in the first k calls. */
  function Received(server: Server, file: string, limit: nat, k: nat): seq<Byte> {
    if k == 0 then []
    else
      var before := Received(server, file, limit, k - 1);
      match server(file, k - 1, |before|, limit)
      case None => before
      case Some(r) => before + r.chunk
  }

  function Answer(server: Server, file: string, limit: nat, k: nat): Option<Response> {
    server(file, k, |Received(server, file, limit, k)|, limit)
  }

  predicate SameDeclaration(a: Response, b: Response) {
    a.totalSize == b.totalSize && a.sha256 == b.sha256
  }

  /** The first k answers kept one declaration, brought bytes and did not end the file. */
  predicate Steady(server: Server, file: string, limit: nat, k: nat) {
    forall i | 0 <= i < k ::
      && Answer(server, file, limit, i).Some? && Answer(server, file, limit, 0).Some?
      && SameDeclaration(Answer(server, file, limit, i).value, Answer(server, file, limit, 0).value)
      && Answer(server, file, limit, i).value.chunk != [] && !Answer(server, file, limit, i).value.eof
  }

  /** The outcome of answer k after k steady ones; None when the loop goes on. */
  function Verdict(server: Server, file: string, limit: nat, k: nat): Option<Fetched<File>> {
    match Answer(server, file, limit, k)
    case None => Some(Failed(CallFailed))
    case Some(r) =>
      var first := Answer(server, file, limit, 0);
      if first.None? || !SameDeclaration(r, first.value) then Some(Failed(DeclarationChanged))
      else if r.chunk == [] && !r.eof then Some(Failed(EmptyChunk))
      else if !r.eof then None
      else
        var content := Received(server, file, limit, k + 1);
        if |content| != r.totalSize then Some(Failed(LengthMismatch))
        else Some(Got(File(file, content, r.totalSize, r.sha256)))
  }

  /** fetch_export_file, for every conversation that ends, at the latest with answer end:
      the outcome is the verdict on the first answer that is not a steady one. */
  method FetchExportFile(server: Server, file: string, chunkLimit: int, ghost end: nat)
    returns (r: Fetched<File>, calls: nat)
    requires 1 <= chunkLimit <= MAX_CHUNK_BYTES ==> Verdict(server, file, chunkLimit, end).Some?
    ensures chunkLimit < 1 || chunkLimit > 262144 ==> r == Failed(BadLimit) && calls == 0
    ensures 1 <= chunkLimit <= MAX_CHUNK_BYTES ==>
              0 < calls <= end + 1 && Steady(server, file, chunkLimit, calls - 1)
              && Verdict(server, file, chunkLimit, calls - 1) == Some(r)
  {
    calls := 0;
    if chunkLimit < 1 || chunkLimit > MAX_CHUNK_BYTES {
      return Failed(BadLimit), calls;
    }
    var buffer: seq<Byte> := [];
    var offset := 0;
    var declared: Option<(int, string)> := None;
    while true
      invariant calls <= end
      invariant Steady(server, file, chunkLimit, calls)
      invariant buffer == Received(server, file, chunkLimit, calls) && offset == |buffer|
      invariant declared.None? <==> calls == 0
      invariant calls > 0 ==> Answer(server, file, chunkLimit, 0).Some?
                              && declared == Some((Answer(server, file, chunkLimit, 0).value.totalSize,
                                                   Answer(server, file, chunkLimit, 0).value.sha256))
      decreases end - calls
    {
      var response := server(file, calls, offset, chunkLimit);
      calls := calls + 1;
      if response.None? {
        return Failed(CallFailed), calls;
      }
      var answer := response.value;
      if declared.None? {
        declared := Some((answer.totalSize, answer.sha256));
      } else if (answer.totalSize, answer.sha256) != declared.value {
        return Failed(DeclarationChanged), calls;
      }
      if answer.chunk == [] && !answer.eof {
        return Failed(EmptyChunk), calls;
      }
      buffer := buffer + answer.chunk;
      offset := offset + |answer.chunk|;
      if answer.eof {
        break;
      }
    }
    if |buffer| != declared.value.0 {
      return Failed(LengthMismatch), calls;
    }
    return Got(File(file, buffer, declared.value.0, declared.value.1)), calls;
  }

  // ----- what any returned file is -----

  /** The chunks of the first k answers, joined in order. */
  function Joined(server: Server, file: string, limit: nat, k: nat): seq<Byte>
    requires forall i | 0 <= i < k :: Answer(server, file, limit, i).Some?
  {
    if k == 0 then [] else Joined(server, file, limit, k - 1) + Answer(server, file, limit, k - 1).value.chunk
  }

  lemma {:induction false} ReceivedIsJoined(server: Server, file: string, limit: nat, k: nat)
    requires forall i | 0 <= i < k :: Answer(server, file, limit, i).Some?
    ensures Received(server, file, limit, k) == Joined(server, file, limit, k)
  {
    if k > 0 {
      ReceivedIsJoined(server, file, limit, k - 1);
      assert Answer(server, file, limit, k - 1).Some?;
    }
  }

  /** Whatever the server does, a returned file carries the one size and digest that every
      answer declared, has that size, and is the chunks joined in order. */
  lemma GotMeansWhole(server: Server, file: string, limit: nat, k: nat, f: File)
    requires Steady(server, file, limit, k) && Verdict(server, file, limit, k) == Some(Got(f))
    ensures forall i | 0 <= i <= k :: Answer(server, file, limit, i).Some?
    ensures forall i | 0 <= i <= k :: Answer(server, file, limit, i).value.totalSize == f.declaredSize
                                      && Answer(server, file, limit, i).value.sha256 == f.declaredSha256
    ensures f.filename == file && |f.content| == f.declaredSize
    ensures f.content == Joined(server, file, limit, k + 1)
  {
    ReceivedIsJoined(server, file, limit, k + 1);
  }

  /** Which answer after k steady ones ends the fetch, and how: none at all, another
      declaration than the first, no bytes although more are to come, or the last bytes,
      that add up to the declared size or do not. */
  lemma VerdictExactly(server: Server, file: string, limit: nat, k: nat)
    requires Steady(server, file, limit, k)
    ensures Answer(server, file, limit, k).None? <==> Verdict(server, file, limit, k) == Some(Failed(CallFailed))
    ensures Answer(server, file, limit, k).Some? ==> forall i | 0 <= i <= k :: Answer(server, file, limit, i).Some?
    ensures Answer(server, file, limit, k).Some? ==>
              var first, r := Answer(server, file, limit, 0).value, Answer(server, file, limit, k).value;
              var same := r.totalSize == first.totalSize && r.sha256 == first.sha256;
              var content := Joined(server, file, limit, k + 1);
              match Verdict(server, file, limit, k)
              case None => same && !r.eof && r.chunk != []
              case Some(Failed(why)) =>
                && (!same <==> why == DeclarationChanged)
                && (same && !r.eof && r.chunk == [] <==> why == EmptyChunk)
                && (same && r.eof && |content| != first.totalSize <==> why == LengthMismatch)
                && (why == DeclarationChanged || why == EmptyChunk || why == LengthMismatch)
              case Some(Got(f)) =>
                same && r.eof && |content| == first.totalSize
                && f == File(file, content, first.totalSize, first.sha256)
  {
    if Answer(server, file, limit, k).Some? {
      ReceivedIsJoined(server, file, limit, k + 1);
    }
  }

  lemma SteadyGoesOn(server: Server, file: string, limit: nat, j: nat, k: nat)
    requires Steady(server, file, limit, k) && j < k
    ensures Verdict(server, file, limit, j).None?
  {
    assert Answer(server, file, limit, j).Some?;
  }

  /** The loop ends with answer k; then the verdict on it is the outcome. */
  predicate EndsAt(server: Server, file: string, limit: nat, k: nat) {
    Steady(server, file, limit, k) && Verdict(server, file, limit, k).Some?
  }

  lemma {:induction false} SteadyUntilVerdict(server: Server, file: string, limit: nat, k: nat)
    requires forall i: nat | i < k :: Verdict(server, file, limit, i).None?
    ensures Steady(server, file, limit, k)
  {
    forall i | 0 <= i < k
      ensures Answer(server, file, limit, i).Some? && Answer(server, file, limit, 0).Some?
      ensures SameDeclaration(Answer(server, file, limit, i).value, Answer(server, file, limit, 0).value)
      ensures Answer(server, file, limit, i).value.chunk != [] && !Answer(server, file, limit, i).value.eof
    {
      assert Verdict(server, file, limit, i).None?;
    }
  }

  /** Some answer gets a verdict exactly when the loop ends at one; otherwise every answer
      is steady and the loop goes on for ever. */
  lemma {:induction false} EndsIffVerdict(server: Server, file: string, limit: nat, end: nat)
    ensures Verdict(server, file, limit, end).Some? ==> exists k: nat | k <= end :: EndsAt(server, file, limit, k)
    ensures (forall k: nat :: !EndsAt(server, file, limit, k)) ==> Steady(server, file, limit, end)
  {
    if i: nat :| i < end && Verdict(server, file, limit, i).Some? {
      EndsIffVerdict(server, file, limit, i);
      var k: nat :| k <= i && EndsAt(server, file, limit, k);
      assert k <= end;
    } else {
      SteadyUntilVerdict(server, file, limit, end);
      assert Verdict(server, file, limit, end).Some? ==> EndsAt(server, file, limit, end);
    }
  }

  /** A conversation has one outcome. */
  lemma OutcomeIsUnique(server: Server, file: string, limit: nat, j: nat, k: nat)
    requires Steady(server, file, limit, j) && Verdict(server, file, limit, j).Some?
    requires Steady(server, file, limit, k) && Verdict(server, file, limit, k).Some?
    ensures j == k
  {
    if j < k {
      SteadyGoesOn(server, file, limit, j, k);
    } else if k < j {
      SteadyGoesOn(server, file, limit, k, j);
    }
  }

  // ----- the slicing server -----

  function Min(a: nat, b: nat): nat { if a <= b then a else b }

  /** export_read over the bytes f, for an offset inside them. */
  function Slice(f: seq<Byte>, digest: string, offset: nat, limit: nat): Response
    requires offset <= |f|
  {
    var end := Min(offset + limit, |f|);
    Response(|f|, digest, f[offset..end], end >= |f|)
  }

  /** For the first n calls the server serves the file as export_read does. */
  ghost predicate Serves(server: Server, file: string, f: seq<Byte>, digest: string, n: nat) {
    forall k: nat, offset: nat, limit: nat | k < n && offset <= |f| ::
      server(file, k, offset, limit) == Some(Slice(f, digest, offset, limit))
  }

  /** max(1, ceil(size / limit)). */
  function CallsNeeded(size: nat, limit: nat): (n: nat)
    requires limit > 0
    ensures n > 0 && size <= n * limit && (n > 1 ==> (n - 1) * limit < size)
  {
    if size <= limit then 1
    else
      assert (size - 1) / limit * limit + (size - 1) % limit == size - 1;
      (size - 1) / limit + 1
  }

  lemma {:induction false} ServedPrefix(server: Server, file: string, limit: nat, f: seq<Byte>, digest: string,
                                        n: nat, k: nat)
    requires Serves(server, file, f, digest, n) && k <= n
    ensures Received(server, file, limit, k) == f[..Min(k * limit, |f|)]
  {
    if k > 0 {
      ServedPrefix(server, file, limit, f, digest, n, k - 1);
      var got := (k - 1) * limit;
      assert k * limit == got + limit;
      ServedOnce(server, file, limit, f, digest, n, k - 1, got);
    }
  }

  lemma ServedOnce(server: Server, file: string, limit: nat, f: seq<Byte>, digest: string,
                   n: nat, k: nat, got: nat)
    requires Serves(server, file, f, digest, n) && k < n
    requires Received(server, file, limit, k) == f[..Min(got, |f|)]
    ensures Answer(server, file, limit, k) == Some(Slice(f, digest, Min(got, |f|), limit))
    ensures Received(server, file, limit, k + 1) == f[..Min(got + limit, |f|)]
  {
  }

  /** The answer to call k is the k-th slice, and ends the file exactly from the last
      needed call on. */
  lemma ServedAnswer(server: Server, file: string, limit: nat, f: seq<Byte>, digest: string, n: nat, k: nat)
    requires Serves(server, file, f, digest, n) && k < n && limit > 0
    ensures Answer(server, file, limit, k) == Some(Slice(f, digest, Min(k * limit, |f|), limit))
    ensures k + 1 < CallsNeeded(|f|, limit) ==>
              !Answer(server, file, limit, k).value.eof && Answer(server, file, limit, k).value.chunk != []
    ensures k + 1 == CallsNeeded(|f|, limit) ==> Answer(server, file, limit, k).value.eof
  {
    ServedPrefix(server, file, limit, f, digest, n, k);
    ServedOnce(server, file, limit, f, digest, n, k, k * limit);
    var needed := CallsNeeded(|f|, limit);
    if k + 1 < needed {
      Multiples(k + 1, needed - 1, limit);
      assert (k + 1) * limit == k * limit + limit;
    }
  }

  lemma Multiples(a: nat, b: nat, limit: nat)
    requires a <= b
    ensures a * limit <= b * limit
  {
    assert b * limit == a * limit + (b - a) * limit;
  }

  /** Against a server that serves the file for as many calls as are needed, the loop ends:
      with call max(1, ceil(size / limit)), and with exactly the file. */
  lemma ServedFetchEnds(server: Server, file: string, limit: nat, f: seq<Byte>, digest: string)
    requires limit > 0 && Serves(server, file, f, digest, CallsNeeded(|f|, limit))
    ensures var last := CallsNeeded(|f|, limit) - 1;
            && EndsAt(server, file, limit, last)
            && Verdict(server, file, limit, last) == Some(Got(File(file, f, |f|, digest)))
  {
    var n := CallsNeeded(|f|, limit);
    forall i | 0 <= i < n
      ensures Answer(server, file, limit, i) == Some(Slice(f, digest, Min(i * limit, |f|), limit))
      ensures i + 1 < n ==> !Answer(server, file, limit, i).value.eof
                            && Answer(server, file, limit, i).value.chunk != []
      ensures i + 1 == n ==> Answer(server, file, limit, i).value.eof
    {
      ServedAnswer(server, file, limit, f, digest, n, i);
    }
    assert Steady(server, file, limit, n - 1);
    ServedPrefix(server, file, limit, f, digest, n, n);
    assert f[..|f|] == f;
    assert Answer(server, file, limit, n - 1).value.eof;
  }

  /** The chunked fetch is a round trip: such a server is one the loop ends against, and
      whatever call it ends with is the last needed one and gives back the file. */
  lemma FetchIsRoundTrip(server: Server, file: string, limit: nat, f: seq<Byte>, digest: string)
    requires limit > 0 && Serves(server, file, f, digest, CallsNeeded(|f|, limit))
    ensures exists k: nat :: EndsAt(server, file, limit, k)
    ensures forall k: nat | EndsAt(server, file, limit, k) ::
              k + 1 == CallsNeeded(|f|, limit)
              && Verdict(server, file, limit, k) == Some(Got(File(file, f, |f|, digest)))
  {
    ServedFetchEnds(server, file, limit, f, digest);
    forall k: nat | EndsAt(server, file, limit, k)
      ensures k + 1 == CallsNeeded(|f|, limit)
    {
      OutcomeIsUnique(server, file, limit, k, CallsNeeded(|f|, limit) - 1);
    }
  }

  /** fetch_export_file against a server that slices the file, with nothing asked of the
      server but that: it makes exactly the needed calls and returns the file. */
  method FetchServedFile(server: Server, file: string, chunkLimit: nat, ghost f: seq<Byte>, ghost digest: string)
    returns (r: Fetched<File>, calls: nat)
    requires 1 <= chunkLimit <= MAX_CHUNK_BYTES
    requires Serves(server, file, f, digest, CallsNeeded(|f|, chunkLimit))
    ensures r == Got(File(file, f, |f|, digest)) && calls == CallsNeeded(|f|, chunkLimit)
  {
    ServedFetchEnds(server, file, chunkLimit, f, digest);
    r, calls := FetchExportFile(server, file, chunkLimit, CallsNeeded(|f|, chunkLimit) - 1);
    OutcomeIsUnique(server, file, chunkLimit, calls - 1, CallsNeeded(|f|, chunkLimit) - 1);
  }

  // ----- several files -----

  /** The outcome for one file, as FetchExportFile gives it. */
  ghost predicate Outcome(server: Server, file: string, chunkLimit: int, r: Fetched<File>) {
    if 1 <= chunkLimit <= MAX_CHUNK_BYTES then
      exists k: nat :: EndsAt(server, file, chunkLimit, k) && Verdict(server, file, chunkLimit, k) == Some(r)
    else r == Failed(BadLimit)
  }

  ghost predicate Succeeds(server: Server, file: string, chunkLimit: int) {
    exists f :: Outcome(server, file, chunkLimit, Got(f))
  }

  /** What fetch_export_files returns for its files in order: all outcomes, or the first
      failure. */
  ghost predicate Outcomes(server: Server, files: seq<string>, chunkLimit: int, r: Fetched<seq<File>>) {
    match r
    case Got(out) =>
      |out| == |files| && forall i | 0 <= i < |files| :: Outcome(server, files[i], chunkLimit, Got(out[i]))
    case Failed(error) =>
      exists i | 0 <= i < |files| ::
        Outcome(server, files[i], chunkLimit, Failed(error))
        && forall j | 0 <= j < i :: Succeeds(server, files[j], chunkLimit)
  }

  /** fetch_export_files: one file after the other; the first failure ends it. ends[i]
      bounds the conversation about file i. */
  method FetchExportFiles(server: Server, files: seq<string>, chunkLimit: int, ghost ends: seq<nat>)
    returns (r: Fetched<seq<File>>)
    requires |ends| == |files|
    requires 1 <= chunkLimit <= MAX_CHUNK_BYTES ==>
               forall i | 0 <= i < |files| :: Verdict(server, files[i], chunkLimit, ends[i]).Some?
    ensures Outcomes(server, files, chunkLimit, r)
  {
    var out: seq<File> := [];
    for i := 0 to |files|
      invariant |out| == i
      invariant forall j | 0 <= j < i :: Outcome(server, files[j], chunkLimit, Got(out[j]))
    {
      var fetched, calls := FetchExportFile(server, files[i], chunkLimit, ends[i]);
      assert Outcome(server, files[i], chunkLimit, fetched);
      if fetched.Failed? {
        assert forall j | 0 <= j < i :: Succeeds(server, files[j], chunkLimit);
        return Failed(fetched.error);
      }
      out := out + [fetched.value];
    }
    return Got(out);
  }

  type Shelf = map<string, (seq<Byte>, string)>

  /** The server serves every file of the shelf, for as many calls as that takes. */
  ghost predicate ServesAll(server: Server, stored: Shelf, limit: nat)
    requires limit > 0
  {
    forall name | name in stored ::
      Serves(server, name, stored[name].0, stored[name].1, CallsNeeded(|stored[name].0|, limit))
  }

  /** export_read over a shelf, answering every call alike. */
  function ExportRead(stored: Shelf): Server {
    (file: string, k: nat, offset: nat, limit: nat) =>
      if file in stored && offset <= |stored[file].0|
      then Some(Slice(stored[file].0, stored[file].1, offset, limit)) else None
  }

  lemma ExportReadServesAll(stored: Shelf, limit: nat)
    requires limit > 0
    ensures ServesAll(ExportRead(stored), stored, limit)
  {
  }

  function Whole(stored: Shelf, name: string): File
    requires name in stored
  {
    File(name, stored[name].0, |stored[name].0|, stored[name].1)
  }

  lemma ServedOutcome(server: Server, file: string, limit: nat, stored: Shelf, r: Fetched<File>)
    requires 1 <= limit <= MAX_CHUNK_BYTES && ServesAll(server, stored, limit) && file in stored
    ensures Outcome(server, file, limit, r) <==> r == Got(Whole(stored, file))
  {
    FetchIsRoundTrip(server, file, limit, stored[file].0, stored[file].1);
    if r == Got(Whole(stored, file)) {
      var k: nat :| EndsAt(server, file, limit, k);
    }
  }

  /** Against a server that serves every requested file, what the call returns is all of
      them, whole and in the order given. */
  lemma FilesRoundTrip(server: Server, files: seq<string>, limit: nat, stored: Shelf, r: Fetched<seq<File>>)
    requires 1 <= limit <= MAX_CHUNK_BYTES && ServesAll(server, stored, limit)
    requires forall i | 0 <= i < |files| :: files[i] in stored
    ensures Outcomes(server, files, limit, r)
       <==> r.Got? && |r.value| == |files| && forall i | 0 <= i < |files| :: r.value[i] == Whole(stored, files[i])
  {
    forall i, one | 0 <= i < |files|
      ensures Outcome(server, files[i], limit, one) <==> one == Got(Whole(stored, files[i]))
    {
      ServedOutcome(server, files[i], limit, stored, one);
    }
  }

  /** fetch_export_files against such a server. */
  method FetchServedFiles(server: Server, files: seq<string>, chunkLimit: nat, ghost stored: Shelf)
    returns (r: Fetched<seq<File>>)
    requires 1 <= chunkLimit <= MAX_CHUNK_BYTES && ServesAll(server, stored, chunkLimit)
    requires forall i | 0 <= i < |files| :: files[i] in stored
    ensures r.Got? && |r.value| == |files| && forall i | 0 <= i < |files| :: r.value[i] == Whole(stored, files[i])
  {
    ghost var ends := seq(|files|, i requires 0 <= i < |files| => CallsNeeded(|stored[files[i]].0|, chunkLimit) - 1);
    forall i | 0 <= i < |files|
      ensures Verdict(server, files[i], chunkLimit, ends[i]).Some?
    {
      ServedFetchEnds(server, files[i], chunkLimit, stored[files[i]].0, stored[files[i]].1);
    }
    r := FetchExportFiles(server, files, chunkLimit, ends);
    FilesRoundTrip(server, files, chunkLimit, stored, r);
  }
}
