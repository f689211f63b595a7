/** The bounded spooler (`src/execution/output-spool.ts`) and the pipeline of redactor
    and spooler (`src/engine/command-runner.ts`). */
module OutputSpool {
  import opened Wrappers
  import opened Bytes
  import opened Redaction

  datatype SpoolError = NoProgress

  /** The first `n` bytes, or all when there are fewer. */
  function Take(data: Bytes, n: nat): (t: Bytes)
    ensures |t| == if |data| < n then |data| else n
    ensures t <= data
  {
    if |data| < n then data else data[..n]
  }

  lemma TakeOfJoin(a: Bytes, b: Bytes, n: nat)
    ensures Take(a + b, n) == if |a| < n then a + Take(b, n - |a|) else Take(a, n)
  {
    if |a| < n && |a + b| >= n {
      assert (a + b)[..n] == a + b[..n - |a|];
    } else if |a| >= n {
      assert (a + b)[..n] == a[..n];
    }
  }

  /** The artifact file; a write may store fewer bytes than asked. */
  class OutputFile {
    var contents: Bytes
    // A write has stored nothing.
    var stuck: bool

    constructor ()
      ensures contents == [] && !stuck
    {
      contents, stuck := [], false;
    }

    method Write(bytes: Bytes, offset: nat, length: nat) returns (written: int)
      requires offset + length <= |bytes|
      modifies this
      ensures written <= length
      ensures contents == if written <= 0 then old(contents) else old(contents) + bytes[offset..offset + written]
      ensures stuck == (old(stuck) || written <= 0)
    {
      written :| written <= length;
      if written > 0 {
        contents := contents + bytes[offset..offset + written];
      } else {
        stuck := true;
      }
    }
  }

  datatype SpoolResult = SpoolResult(
    bytesObserved: nat,
    bytesStored: nat,
    truncated: bool,
    artifactHashed: Bytes,
    observedHashed: Bytes,
    summary: Bytes)

  class Spool {
    const maxArtifactBytes: nat
    const maxSummaryBytes: nat
    const file: OutputFile
    var summaryChunks: seq<Bytes>
    var summaryBytes: nat
    var bytesObserved: nat
    var bytesStored: nat
    // What the two running hashes have been fed.
    var artifactHashed: Bytes
    var observedHashed: Bytes

    /** `observed` is everything received so far. */
    ghost predicate Valid(observed: Bytes)
      reads this, file
    {
      && observedHashed == observed && bytesObserved == |observed|
      && ArtifactHolds(observed) && SummaryHolds(observed)
    }

    /** The file, its length and its hash all hold the first bytes observed. */
    ghost predicate ArtifactHolds(observed: Bytes)
      reads this, file
    {
      file.contents == artifactHashed == Take(observed, maxArtifactBytes) && bytesStored == |file.contents|
    }

    ghost predicate SummaryHolds(observed: Bytes)
      reads this
    {
      Flatten(summaryChunks) == Take(observed, maxSummaryBytes) && summaryBytes == |Flatten(summaryChunks)|
    }

    constructor (file: OutputFile, maxArtifactBytes: nat, maxSummaryBytes: nat)
      requires file.contents == []
      ensures Valid([]) && this.file == file
      ensures this.maxArtifactBytes == maxArtifactBytes && this.maxSummaryBytes == maxSummaryBytes
    {
      this.maxArtifactBytes, this.maxSummaryBytes := maxArtifactBytes, maxSummaryBytes;
      this.file := file;
      summaryChunks, summaryBytes, bytesObserved, bytesStored := [], 0, 0, 0;
      artifactHashed, observedHashed := [], [];
    }

    /** `writeAll`: repeats partial writes; one without progress is an error. */
    method WriteAll(bytes: Bytes) returns (r: Result<(), SpoolError>)
      modifies file
      ensures r.Ok? ==> file.contents == old(file.contents) + bytes && file.stuck == old(file.stuck)
      ensures r.Err? ==> file.stuck
    {
      var offset := 0;
      assert bytes[..0] == [];
      while offset < |bytes|
        invariant 0 <= offset <= |bytes|
        invariant file.contents == old(file.contents) + bytes[..offset] && file.stuck == old(file.stuck)
      {
        var written := file.Write(bytes, offset, |bytes| - offset);
        if written <= 0 { return Err(NoProgress); }
        assert bytes[..offset + written] == bytes[..offset] + bytes[offset..offset + written];
        offset := offset + written;
      }
      assert bytes[..|bytes|] == bytes;
      return Ok(());
    }

    /** The summary part of the read loop. */
    method AddToSummary(value: Bytes, ghost observed: Bytes)
      requires SummaryHolds(observed)
      modifies this`summaryChunks, this`summaryBytes
      ensures SummaryHolds(observed + value)
    {
      TakeOfJoin(observed, value, maxSummaryBytes);
      if summaryBytes < maxSummaryBytes {
        var summaryLength := if |value| < maxSummaryBytes - summaryBytes then |value| else maxSummaryBytes - summaryBytes;
        if summaryLength > 0 {
          FlattenAppend(summaryChunks, value[..summaryLength]);
          summaryChunks := summaryChunks + [value[..summaryLength]];
          summaryBytes := summaryBytes + summaryLength;
        }
      }
    }

    /** The artifact part of the read loop. */
    method AddToArtifact(value: Bytes, ghost observed: Bytes) returns (r: Result<(), SpoolError>)
      requires ArtifactHolds(observed)
      modifies this`bytesStored, this`artifactHashed, file
      ensures r.Ok? ==> ArtifactHolds(observed + value) && file.stuck == old(file.stuck)
      ensures r.Err? ==> file.stuck
    {
      TakeOfJoin(observed, value, maxArtifactBytes);
      if bytesStored < maxArtifactBytes {
        var storedLength := if |value| < maxArtifactBytes - bytesStored then |value| else maxArtifactBytes - bytesStored;
        if storedLength > 0 {
          var stored := value[..storedLength];
          artifactHashed := artifactHashed + stored;
          var _ :- WriteAll(stored);
          bytesStored := bytesStored + storedLength;
        }
      }
      return Ok(());
    }

    /** One round of the read loop. */
    method Accept(value: Bytes, ghost observed: Bytes) returns (r: Result<(), SpoolError>)
      requires Valid(observed)
      modifies this, file
      ensures r.Ok? ==> Valid(observed + value) && file.stuck == old(file.stuck)
      ensures r.Err? ==> file.stuck
    {
      if |value| == 0 {
        assert observed + value == observed;
        return Ok(());
      }
      AddToSummary(value, observed);
      r := AddToArtifact(value, observed);
      observedHashed := observedHashed + value;
      bytesObserved := bytesObserved + |value|;
    }

    /** The values returned once the stream has ended. */
    method Finish(ghost observed: Bytes) returns (result: SpoolResult)
      requires Valid(observed)
      ensures result == SpoolResult(|observed|, |Take(observed, maxArtifactBytes)|, |observed| > maxArtifactBytes,
                                    Take(observed, maxArtifactBytes), observed, Take(observed, maxSummaryBytes))
    {
      var summary := ConcatChunks(summaryChunks);
      var truncated := bytesObserved > bytesStored;
      return SpoolResult(bytesObserved, bytesStored, truncated, artifactHashed, observedHashed, summary);
    }
  }

  method ConcatChunks(chunks: seq<Bytes>) returns (output: Bytes)
    ensures output == Flatten(chunks)
  {
    output := [];
    assert chunks[0..] == chunks && [] + Flatten(chunks) == Flatten(chunks);
    for i := 0 to |chunks|
      invariant Flatten(chunks) == output + Flatten(chunks[i..])
    {
      assert chunks[i..][1..] == chunks[i + 1..];
      JoinAssociative(output, chunks[i], Flatten(chunks[i + 1..]));
      output := output + chunks[i];
    }
    assert output + [] == output;
  }

  /** What is reported of an output: its size, how much was stored and whether that is less,
      what was hashed, and its beginning. */
  ghost predicate Reports(result: SpoolResult, output: Bytes, maxArtifactBytes: nat, maxSummaryBytes: nat) {
    var stored := Take(output, maxArtifactBytes);
    result == SpoolResult(|output|, |stored|, |output| > maxArtifactBytes, stored, output, Take(output, maxSummaryBytes))
  }

  /** The whole pipeline over the chunks a child process happened to write: the artifact
      and the summary are exact prefixes of one redaction pass over all its output, both
      hashes cover exactly the stored and the observed bytes, and `truncated` says
      precisely that the redacted output exceeds the artifact bound. It fails only when
      the file takes no more bytes. */
  method SpoolRedacted(items: seq<Replacement>, chunks: seq<Bytes>, file: OutputFile, maxArtifactBytes: nat, maxSummaryBytes: nat)
    returns (r: Result<SpoolResult, SpoolError>)
    requires NonEmptyNeedles(items) && file.contents == [] && !file.stuck
    modifies file
    ensures r.Ok? <==> !file.stuck
    ensures var redacted := Replace(items, Flatten(chunks));
            r.Ok? ==> file.contents == Take(redacted, maxArtifactBytes) && Reports(r.value, redacted, maxArtifactBytes, maxSummaryBytes)
  {
    var redactor := new Redactor(items);
    var spool := new Spool(file, maxArtifactBytes, maxSummaryBytes);
    ghost var observed: Bytes := [];
    ghost var whole := Flatten(Streamed(items, [], chunks));
    assert chunks[0..] == chunks && [] + whole == whole;
    for i := 0 to |chunks|
      invariant redactor.items == items
      invariant spool.Valid(observed) && fresh(spool) && spool.file == file && fresh(redactor) && !file.stuck
      invariant spool.maxArtifactBytes == maxArtifactBytes && spool.maxSummaryBytes == maxSummaryBytes
      invariant whole == observed + Flatten(Streamed(items, redactor.pending, chunks[i..]))
    {
      StreamedGoesOn(items, redactor.pending, chunks[i..], observed);
      assert chunks[i..][1..] == chunks[i + 1..];
      hide Decide, Flatten, Streamed, Take;
      var output := redactor.Transform(chunks[i]);
      var accepted := spool.Accept(output, observed);
      if accepted.Err? { return Err(accepted.error); }
      observed := observed + output;
    }
    StreamedEnds(items, redactor.pending, observed);
    var output := redactor.Flush();
    var accepted := spool.Accept(output, observed);
    if accepted.Err? { return Err(accepted.error); }
    observed := observed + output;
    ChunkingDoesNotMatter(items, [], chunks);
    assert [] + Flatten(chunks) == Flatten(chunks);
    var result := spool.Finish(observed);
    return Ok(result);
  }

  /** One output of a command, from the environment and the redactions to the artifact:
      the bytes stored, hashed and summarized are the redaction of what the child wrote,
      however it cut its output. */
  method SpoolCommandOutput(environment: map<string, Bytes>, redactions: seq<Redacted>, chunks: seq<Bytes>, file: OutputFile,
          maxArtifactBytes: nat, maxSummaryBytes: nat)
    returns (r: Result<SpoolResult, SpoolError>, ghost output: Bytes)
    requires file.contents == [] && !file.stuck
    modifies file
    ensures r.Ok? <==> !file.stuck
    ensures IsRedaction(environment, redactions, Flatten(chunks), output)
    ensures r.Ok? ==> file.contents == Take(output, maxArtifactBytes) && Reports(r.value, output, maxArtifactBytes, maxSummaryBytes)
  {
    var replacements := BuildReplacements(environment, redactions);
    ReplaceRedacts(environment, redactions, replacements, Flatten(chunks));
    output := Replace(replacements, Flatten(chunks));
    r := SpoolRedacted(replacements, chunks, file, maxArtifactBytes, maxSummaryBytes);
  }

  lemma StreamedGoesOn(items: seq<Replacement>, pending: Bytes, chunks: seq<Bytes>, observed: Bytes)
    requires NonEmptyNeedles(items) && chunks != []
    ensures var d := Decide(items, pending + chunks[0], MaxNeedle(items));
            observed + Flatten(Streamed(items, pending, chunks)) == observed + d.output + Flatten(Streamed(items, d.remainder, chunks[1..]))
  {
    var d := Decide(items, pending + chunks[0], MaxNeedle(items));
    var streamed := Streamed(items, pending, chunks);
    assert streamed[0] == d.output && streamed[1..] == Streamed(items, d.remainder, chunks[1..]);
    JoinAssociative(observed, d.output, Flatten(streamed[1..]));
  }

  lemma StreamedEnds(items: seq<Replacement>, pending: Bytes, observed: Bytes)
    requires NonEmptyNeedles(items)
    ensures observed + Flatten(Streamed(items, pending, [])) == observed + Replace(items, pending)
  {
    ChunkingDoesNotMatter(items, pending, []);
    assert pending + [] == pending;
  }
}
