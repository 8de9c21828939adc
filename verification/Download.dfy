/** The read loop of `_download` (scripts/bootstrap_uv.py:683-757) over the file it writes. */
module Download {
  import opened Wrappers

  type Bytes = seq<int>

  const CHUNK_SIZE: nat := 0x10_0000

  /** What a read comes back with; Failed stands for every exception, the deadline included. */
  datatype Chunk = Data(bytes: Bytes) | Failed

  /** The response: its declared length, when that is a decimal string, and the outcome of the k-th read of at most n
    * bytes.
    */
  datatype Response = Response(length: Option<nat>, read: (nat, nat) -> Chunk) {
    /** A read never returns more than was asked for. */
    ghost predicate Bounded() {
      forall k, n :: read(k, n).Data? ==> |read(k, n).bytes| <= n
    }
  }

  function Limit(expected: nat, written: nat): nat
    requires written <= expected
  {
    if CHUNK_SIZE <= expected - written + 1 then CHUNK_SIZE else expected - written + 1
  }

  /** What the reads from the k-th on add to a file of which `written` bytes are there; None when they fail. */
  function Received(r: Response, expected: nat, written: nat, k: nat): (content: Option<Bytes>)
    requires r.Bounded() && written <= expected
    ensures content.Some? ==> written + |content.value| == expected
    decreases expected - written
  {
    if written == expected then Some([])
    else
      match r.read(k, Limit(expected, written))
      case Failed => None
      case Data(bytes) =>
        if bytes == [] || written + |bytes| > expected then None
        else
          match Received(r, expected, written + |bytes|, k + 1)
          case None => None
          case Some(rest) => Some(bytes + rest)
  }

  /** What has been read, and what is still to come, make up the whole. */
  ghost predicate Continues(whole: Option<Bytes>, read: Bytes, rest: Option<Bytes>) {
    whole == match rest case None => None case Some(more) => Some(read + more)
  }

  lemma NothingRead(whole: Option<Bytes>)
    ensures Continues(whole, [], whole)
  {
    assert whole.Some? ==> [] + whole.value == whole.value;
  }

  lemma MoreRead(whole: Option<Bytes>, read: Bytes, chunk: Bytes, rest: Option<Bytes>)
    requires Continues(whole, read, match rest case None => None case Some(more) => Some(chunk + more))
    ensures Continues(whole, read + chunk, rest)
  {
    assert rest.Some? ==> read + (chunk + rest.value) == (read + chunk) + rest.value;
  }

  class Destination {
    var content: Option<Bytes>

    constructor (found: Option<Bytes>)
      ensures content == found
    {
      content := found;
    }

    /** The loop over the open file. */
    method ReadAll(r: Response, expected: nat) returns (ok: bool)
      requires r.Bounded() && content == Some([])
      modifies this
      ensures ok <==> Received(r, expected, 0, 0).Some?
      ensures ok ==> content == Received(r, expected, 0, 0)
    {
      var written, k := 0, 0;
      NothingRead(Received(r, expected, 0, 0));
      while written < expected
        invariant written <= expected && content.Some? && |content.value| == written
        invariant Continues(Received(r, expected, 0, 0), content.value, Received(r, expected, written, k))
        decreases expected - written
      {
        var chunk := r.read(k, Limit(expected, written));
        if chunk.Failed? {
          return false;
        }
        if chunk.bytes == [] {
          break;
        }
        if written + |chunk.bytes| > expected {
          return false;
        }
        MoreRead(Received(r, expected, 0, 0), content.value, chunk.bytes,
          Received(r, expected, written + |chunk.bytes|, k + 1));
        content := Some(content.value + chunk.bytes);
        written := written + |chunk.bytes|;
        k := k + 1;
      }
      ok := written == expected;
      assert content.value + [] == content.value;
    }

    /** `_download`. A download that succeeds leaves exactly the expected number of bytes, which are those that were
      * read; one that fails leaves no file, not even one that was there before. An invalid size leaves everything as it
      * is.
      */
    method Fetch(response: Option<Response>, expected: int) returns (ok: bool)
      requires response.Some? ==> response.value.Bounded()
      modifies this
      ensures ok <==>
        && expected > 0 && old(content) == None && response.Some? && response.value.length == Some(expected)
        && Received(response.value, expected, 0, 0).Some?
      ensures ok ==> content == Received(response.value, expected, 0, 0) && |content.value| == expected
      ensures !ok ==> content == if expected <= 0 then old(content) else None
    {
      if expected <= 0 {
        return false;
      }
      ok := response.Some? && response.value.length == Some(expected) && content.None?;
      if ok {
        content := Some([]);
        ok := ReadAll(response.value, expected);
      }
      if !ok {
        content := None;
      }
    }
  }

  // ----- the reads of a complete download -----

  function Joined(chunks: seq<Bytes>): (r: Bytes) {
    if chunks == [] then [] else chunks[0] + Joined(chunks[1..])
  }

  /** From the k-th read on, each asks for at most a mebibyte, and for at most one byte more than is missing, and brings
    * some of it; in the end nothing is missing.
    */
  ghost predicate AreReads(r: Response, missing: nat, k: nat, chunks: seq<Bytes>)
    decreases |chunks|
  {
    if chunks == [] then missing == 0
    else
      && missing > 0 && r.read(k, if missing < 1024 * 1024 then missing + 1 else 1024 * 1024) == Data(chunks[0])
      && 0 < |chunks[0]| <= missing && AreReads(r, missing - |chunks[0]|, k + 1, chunks[1..])
  }

  lemma {:induction false} ReadsAreReceived(r: Response, expected: nat, written: nat, k: nat, chunks: seq<Bytes>)
    requires r.Bounded() && written <= expected && AreReads(r, expected - written, k, chunks)
    ensures Received(r, expected, written, k) == Some(Joined(chunks))
    decreases |chunks|
  {
    if chunks != [] {
      ReadsAreReceived(r, expected, written + |chunks[0]|, k + 1, chunks[1..]);
    }
  }

  lemma {:induction false} ReceivedInReads(r: Response, expected: nat, written: nat, k: nat)
    returns (chunks: seq<Bytes>)
    requires r.Bounded() && written <= expected && Received(r, expected, written, k).Some?
    ensures AreReads(r, expected - written, k, chunks) && Received(r, expected, written, k) == Some(Joined(chunks))
    decreases expected - written
  {
    chunks := [];
    if written < expected {
      var bytes := r.read(k, Limit(expected, written)).bytes;
      var rest := ReceivedInReads(r, expected, written + |bytes|, k + 1);
      chunks := [bytes] + rest;
      assert chunks[1..] == rest;
    }
  }

  /** A download is complete with some content exactly when its reads bring that content, none of them nothing. */
  lemma ReceivedIff(r: Response, expected: nat, content: Bytes)
    requires r.Bounded()
    ensures Received(r, expected, 0, 0) == Some(content) <==>
      exists chunks :: AreReads(r, expected, 0, chunks) && Joined(chunks) == content
  {
    if Received(r, expected, 0, 0) == Some(content) {
      var chunks := ReceivedInReads(r, expected, 0, 0);
      assert AreReads(r, expected, 0, chunks);
    }
    if chunks :| AreReads(r, expected, 0, chunks) && Joined(chunks) == content {
      ReadsAreReceived(r, expected, 0, 0, chunks);
    }
  }
}
