/** Multipart upload of a pod's log stream (controller/internal/object/logStore.go). */
module LogStores {
  newtype byte = x: int | 0 <= x < 256

  datatype ReadError = NoError | Eof | PodDeleted | Broken

  /** What one call of reader.Read delivers: bytes and, with them, possibly an error. */
  datatype Read = Read(bytes: seq<byte>, err: ReadError)

  /** Which calls of the object store fail. */
  datatype Faults = Faults(parts: set<int>, put: bool, complete: bool)

  datatype UploadState = Open | Aborted | Completed

  datatype Part = Part(number: int, body: seq<byte>)

  const DEFAULT_MIN_PART_SIZE: nat := 5 * 1024 * 1024
  const MAX_CHUNK: nat := 1024 * 1024

  function MinPart(configured: nat): nat {
    if configured == 0 then DEFAULT_MIN_PART_SIZE else configured
  }

  function ChunkSize(minPart: nat): nat {
    if minPart > MAX_CHUNK then MAX_CHUNK else minPart
  }

  /** A finished stream: calls without error, then one that ends it; none exceeds its buffer. */
  ghost predicate Finished(calls: seq<Read>, chunk: nat) {
    && calls != []
    && (forall i :: 0 <= i < |calls| ==> |calls[i].bytes| <= chunk)
    && (forall i :: 0 <= i < |calls| - 1 ==> calls[i].err == NoError)
    && calls[|calls| - 1].err != NoError
  }

  function Stream(calls: seq<Read>): seq<byte> {
    if calls == [] then [] else Stream(calls[..|calls| - 1]) + calls[|calls| - 1].bytes
  }

  function Bodies(parts: seq<Part>): seq<byte> {
    if parts == [] then [] else Bodies(parts[..|parts| - 1]) + parts[|parts| - 1].body
  }

  /** Consecutive numbers from 1. */
  ghost predicate Numbered(parts: seq<Part>) {
    forall i :: 0 <= i < |parts| ==> parts[i].number == i + 1
  }

  ghost predicate FullParts(parts: seq<Part>, minPart: nat, chunk: nat) {
    forall i :: 0 <= i < |parts| ==> minPart <= |parts[i].body| < minPart + chunk
  }

  /** The object store as one log's upload sees it: the multipart upload and the object itself. */
  class ObjectStore {
    const faults: Faults
    var state: UploadState
    var parts: seq<Part>
    var stored: seq<seq<byte>>

    constructor (faults: Faults)
      ensures this.faults == faults && state == Open && parts == [] && stored == []
    {
      this.faults, state, parts, stored := faults, Open, [], [];
    }

    method Abort()
      modifies this`state
      ensures state == Aborted
    {
      state := Aborted;
    }

    method UploadPart(number: int, body: seq<byte>) returns (ok: bool)
      requires state == Open
      modifies this`state, this`parts
      ensures ok <==> number !in faults.parts
      ensures ok ==> state == Open && parts == old(parts) + [Part(number, body)]
      ensures !ok ==> state == Aborted && parts == old(parts)
    {
      if number in faults.parts {
        Abort();
        return false;
      }
      parts := parts + [Part(number, body)];
      return true;
    }

    method PutObject(body: seq<byte>) returns (ok: bool)
      modifies this`stored
      ensures ok <==> !faults.put
      ensures stored == if ok then old(stored) + [body] else old(stored)
    {
      if faults.put {
        return false;
      }
      stored := stored + [body];
      return true;
    }

    method Complete() returns (ok: bool)
      requires state == Open
      modifies this`state, this`stored
      ensures ok <==> !faults.complete
      ensures ok ==> state == Completed && stored == old(stored) + [Bodies(parts)]
      ensures !ok ==> state == Open && stored == old(stored)
    {
      if faults.complete {
        return false;
      }
      state, stored := Completed, stored + [Bodies(parts)];
      return true;
    }
  }

  datatype Result = Success | PodGone | Failure

  lemma BodiesAppend(parts: seq<Part>, part: Part)
    ensures Bodies(parts + [part]) == Bodies(parts) + part.body
  {
    assert (parts + [part])[..|parts|] == parts;
  }

  /** The state between two reads: what is uploaded and what is buffered make up what was read. */
  ghost predicate Rechunked(parts: seq<Part>, buffer: seq<byte>, read: seq<byte>, minPart: nat) {
    && Numbered(parts) && FullParts(parts, minPart, ChunkSize(minPart))
    && Bodies(parts) + buffer == read
  }

  /** One read, and the upload of the buffer if it is now long enough. */
  method Absorb(store: ObjectStore, minPart: nat, buffer: seq<byte>, chunk: seq<byte>, ghost read: seq<byte>)
    returns (ok: bool, rest: seq<byte>)
    requires store.state == Open && |chunk| <= ChunkSize(minPart) && |buffer| < minPart
    requires Rechunked(store.parts, buffer, read, minPart)
    modifies store`state, store`parts
    ensures ok ==> store.state == Open && |rest| < minPart && Rechunked(store.parts, rest, read + chunk, minPart)
    ensures !ok ==> store.state == Aborted && store.parts == old(store.parts) && store.faults.parts != {}
    ensures old(store.parts) != [] ==> store.parts != []
  {
    rest := buffer + chunk;
    assert Bodies(store.parts) + rest == read + chunk;
    if |rest| >= minPart {
      BodiesAppend(store.parts, Part(|store.parts| + 1, rest));
      ok := store.UploadPart(|store.parts| + 1, rest);
      if ok {
        rest := [];
        assert Bodies(store.parts) + rest == read + chunk;
      }
    } else {
      ok := true;
    }
  }

  /** The stream breaks after the first part was uploaded. */
  predicate LeavesOpen(calls: seq<Read>, minPart: nat)
    requires calls != []
  {
    calls[|calls| - 1].err == Broken && |Stream(calls[..|calls| - 1])| >= minPart
  }

  /** The read loop, up to the end of the stream or the first failure. */
  method ReadAll(store: ObjectStore, minPart: nat, calls: seq<Read>) returns (r: Result, buffer: seq<byte>)
    requires store.state == Open && store.parts == [] && minPart > 0
    requires Finished(calls, ChunkSize(minPart))
    modifies store`state, store`parts
    ensures r == Success ==>
              && calls[|calls| - 1].err == Eof && store.state == Open && |buffer| < minPart
              && Rechunked(store.parts, buffer, Stream(calls), minPart)
    ensures r != Success ==>
            && store.state != Completed && Numbered(store.parts)
            && FullParts(store.parts, minPart, ChunkSize(minPart))
    ensures r != Success && store.state == Open ==> r == Failure && LeavesOpen(calls, minPart)
    ensures store.faults.parts == {} ==>
              && r == (match calls[|calls| - 1].err case Eof => Success case PodDeleted => PodGone case _ => Failure)
              && (r != Success ==> (store.state == Open <==> LeavesOpen(calls, minPart)))
  {
    buffer := [];
    var i := 0;
    while true
      invariant 0 <= i < |calls|
      invariant store.state == Open && |buffer| < minPart
      invariant Rechunked(store.parts, buffer, Stream(calls[..i]), minPart)
      decreases |calls| - i
    {
      var read := calls[i];
      if read.err == PodDeleted {
        store.Abort();
        return PodGone, buffer;
      }
      if read.err == Broken {
        assert calls[..|calls| - 1] == calls[..i];
        if store.parts == [] {
          assert Stream(calls[..i]) == buffer;
          store.Abort();
        } else {
          BodiesLength(store.parts, minPart);
        }
        return Failure, buffer;
      }
      assert calls[..i + 1][..i] == calls[..i];
      var ok, rest := Absorb(store, minPart, buffer, read.bytes, Stream(calls[..i]));
      if !ok {
        return Failure, buffer;
      }
      buffer, i := rest, i + 1;
      if read.err == Eof {
        break;
      }
    }
    assert calls[..i] == calls;
    return Success, buffer;
  }

  /** What is left in the buffer at the end of the stream: an object of its own, or the last part. */
  method StoreRest(store: ObjectStore, minPart: nat, buffer: seq<byte>, ghost stream: seq<byte>) returns (ok: bool)
    requires store.state == Open && store.stored == [] && |buffer| < minPart
    requires Rechunked(store.parts, buffer, stream, minPart)
    modifies store
    ensures store.stored == if ok && stream != [] then [stream] else []
    ensures store.state == if ok && |stream| >= minPart then Completed else Aborted
    ensures ok && |stream| < minPart ==> store.parts == []
    ensures ok && |stream| >= minPart ==> Bodies(store.parts) == stream
    ensures store.parts == old(store.parts) || (buffer != []
            && store.parts == old(store.parts) + [Part(|old(store.parts)| + 1, buffer)])
    ensures store.faults == Faults({}, false, false) ==> ok
  {
    ok := true;
    if store.parts == [] {
      assert stream == buffer;
      if |buffer| > 0 {
        ok := store.PutObject(buffer);
      }
      store.Abort();
      return;
    }
    BodiesLength(store.parts, minPart);
    if |buffer| > 0 {
      BodiesAppend(store.parts, Part(|store.parts| + 1, buffer));
      ok := store.UploadPart(|store.parts| + 1, buffer);
      if !ok {
        return;
      }
    }
    assert Bodies(store.parts) == stream;
    ok := store.Complete();
    if !ok {
      store.Abort();
    }
  }

  /** The whole upload. Success means that the function went through to its end. The one way to leave
      the multipart upload open is a stream that breaks after the first part: the deferred cleanup looks
      at an error variable that this return does not set. */
  method UploadLogs(store: ObjectStore, minPartSize: nat, calls: seq<Read>) returns (r: Result)
    requires store.state == Open && store.parts == [] && store.stored == []
    requires Finished(calls, ChunkSize(MinPart(minPartSize)))
    modifies store
    ensures r == Success ==> calls[|calls| - 1].err == Eof
    ensures store.stored == if r == Success && Stream(calls) != [] then [Stream(calls)] else []
    ensures r == Success && |Stream(calls)| < MinPart(minPartSize) ==> store.parts == [] && store.state == Aborted
    ensures r == Success && |Stream(calls)| >= MinPart(minPartSize) ==>
              store.state == Completed && store.parts != [] && Bodies(store.parts) == Stream(calls)
    ensures r != Success ==> store.state != Completed
    ensures AllButLastFull(store.parts, MinPart(minPartSize))
    ensures store.state == Open ==> r == Failure && LeavesOpen(calls, MinPart(minPartSize))
    ensures store.faults == Faults({}, false, false) ==>
              && r == (match calls[|calls| - 1].err case Eof => Success case PodDeleted => PodGone case _ => Failure)
              && (store.state == Open <==> LeavesOpen(calls, MinPart(minPartSize)))
    ensures var minPart := if minPartSize == 0 then 5_242_880 else minPartSize;
            && (r == Success && |Stream(calls)| < minPart ==> store.parts == [] && store.state == Aborted)
            && (r == Success && |Stream(calls)| >= minPart ==>
                  store.state == Completed && store.parts != [] && Bodies(store.parts) == Stream(calls))
            && (forall i :: 0 <= i < |store.parts| ==>
                  && store.parts[i].number == i + 1
                  && 0 < |store.parts[i].body| < minPart + (if minPart > 1_048_576 then 1_048_576 else minPart)
                  && (i < |store.parts| - 1 ==> minPart <= |store.parts[i].body|))
  {
    var localMinPart := MinPart(minPartSize);
    var buffer;
    r, buffer := ReadAll(store, localMinPart, calls);
    if r == Success {
      var ok := StoreRest(store, localMinPart, buffer, Stream(calls));
      r := if ok then Success else Failure;
    }
  }

  /** Numbered from 1; all but the last at least minPart long, all shorter than minPart plus a chunk,
      none empty. */
  ghost predicate AllButLastFull(parts: seq<Part>, minPart: nat) {
    && Numbered(parts)
    && forall i :: 0 <= i < |parts| ==>
         && 0 < |parts[i].body| < minPart + ChunkSize(minPart)
         && (i < |parts| - 1 ==> minPart <= |parts[i].body|)
  }

  lemma BodiesLength(parts: seq<Part>, minPart: nat)
    requires parts != [] && |parts[0].body| >= minPart
    ensures |Bodies(parts)| >= minPart
  {
    if |parts| > 1 {
      BodiesLength(parts[..|parts| - 1], minPart);
    }
  }

  /** One byte, which is a part, and then a broken read: the upload stays open on a store without faults. */
  method BrokenAfterTheFirstPart() returns (store: ObjectStore, calls: seq<Read>)
    ensures fresh(store) && store.faults == Faults({}, false, false)
    ensures Finished(calls, ChunkSize(MinPart(1))) && Stream(calls) == [7]
    ensures store.state == Open && store.stored == []
  {
    store := new ObjectStore(Faults({}, false, false));
    calls := [Read([7], NoError), Read([], Broken)];
    assert calls[..1] == [Read([7], NoError)] && calls[..1][..0] == [];
    var r := UploadLogs(store, 1, calls);
  }
}
