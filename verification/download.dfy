/**
  `download_verified` (thyn_security_toolchain/fetch.py): stream a URL into `<dest>.part`,
  digesting as it goes, and rename the part over `dest` only when the digest is the locked one.

  The network and the disk are an oracle that answers each attempt with a `Reply`. The hash is
  any function that can be fed in pieces; SHA-256 is one.
 */
module Download {

  type Bytes = seq<bv8>

  /** A read that returns no bytes ends the stream, so a chunk is never empty. */
  type Chunk = c: Bytes | c != [] witness [0]

  type Path = string

  /** A streaming digest: `sha256()`, `update` and `hexdigest`. */
  datatype Hasher<!S, !D> = Hasher(init: S, update: (S, Bytes) -> S, hexdigest: S -> D)

  /** Feeding two pieces is feeding their concatenation, and feeding nothing changes nothing. */
  ghost predicate Streaming<S(!new), D>(h: Hasher<S, D>) {
    (forall s, a, b :: FedInPieces(h, s, a, b)) && (forall s :: FedNothing(h, s))
  }

  ghost predicate FedInPieces<S, D>(h: Hasher<S, D>, s: S, a: Bytes, b: Bytes) {
    h.update(h.update(s, a), b) == h.update(s, a + b)
  }

  ghost predicate FedNothing<S, D>(h: Hasher<S, D>, s: S) {
    h.update(s, []) == s
  }

  function DigestOf<S, D>(h: Hasher<S, D>, content: Bytes): D {
    h.hexdigest(h.update(h.init, content))
  }

  function Concat(chunks: seq<Chunk>): Bytes {
    if chunks == [] then [] else Concat(chunks[..|chunks| - 1]) + chunks[|chunks| - 1]
  }

  /** Whether `except (URLError, OSError, TimeoutError)` catches what was raised. */
  datatype Fault = Caught | Uncaught

  datatype Ending =
    | Broken(fault: Fault)                        // raised while reading the response or writing the part
    | EndOfStream(renames: bool, removes: bool)   // the response ended; what a rename, or a removal, would do

  /** What one attempt meets; `cleans` says whether the handler's removal of the part would succeed. */
  datatype Reply =
    | Refused(fault: Fault, cleans: bool)         // no connection
    | Unwritable(cleans: bool)                    // the part could not be opened for writing
    | Stream(chunks: seq<Chunk>, end: Ending, cleans: bool)

  datatype Outcome = Installed | DigestMismatch | GaveUp | Escaped

  /** How the `try` ends. What is raised carries the part left behind, if one was opened. */
  datatype TryEnd = Done(body: Bytes) | Mismatched | Raised(fault: Fault, part: seq<Bytes>)

  function TryEndOf<S, D(==)>(h: Hasher<S, D>, expected: D, reply: Reply): TryEnd {
    match reply
    case Refused(fault, _) => Raised(fault, [])
    case Unwritable(_) => Raised(Caught, [])
    case Stream(chunks, Broken(fault), _) => Raised(fault, [Concat(chunks)])
    case Stream(chunks, EndOfStream(renames, removes), _) =>
      if DigestOf(h, Concat(chunks)) == expected
      then (if renames then Done(Concat(chunks)) else Raised(Caught, [Concat(chunks)]))
      else (if removes then Mismatched else Raised(Caught, [Concat(chunks)]))
  }

  datatype Verdict = Keep(body: Bytes) | Reject | Retry | Escape(part: seq<Bytes>)

  /** What one reply amounts to, with the handler, which removes the part before the next attempt. */
  function Judge<S, D(==)>(h: Hasher<S, D>, expected: D, reply: Reply): Verdict {
    match TryEndOf(h, expected, reply)
    case Done(body) => Keep(body)
    case Mismatched => Reject
    case Raised(Caught, part) => if reply.cleans then Retry else Escape(part)
    case Raised(Uncaught, part) => Escape(part)
  }

  /** How many of the replies, from `from` on, are used. */
  function Tries<S, D(==)>(h: Hasher<S, D>, expected: D, replies: seq<Reply>, from: nat, attempts: int): nat
    requires attempts <= |replies|
    decreases attempts - from
  {
    if from >= attempts then 0
    else if Judge(h, expected, replies[from]) == Retry then 1 + Tries(h, expected, replies, from + 1, attempts)
    else 1
  }

  function PartOf(dest: Path): Path {
    dest + ".part"
  }

  class FileSystem {
    var files: map<Path, Bytes>

    constructor ()
      ensures files == map[]
    {
      files := map[];
    }

    method Unlink(path: Path)
      modifies this
      ensures files == old(files) - {path}
    {
      files := files - {path};
    }

    method Write(path: Path, content: Bytes)
      modifies this
      ensures files == old(files)[path := content]
    {
      files := files[path := content];
    }

    method Replace(source: Path, target: Path)
      requires source in files && source != target
      modifies this
      ensures files == (old(files) - {source})[target := old(files)[source]]
    {
      files := (files - {source})[target := files[source]];
    }
  }

  function Max(a: int, b: int): int {
    if a < b then b else a
  }

  /** The files as an attempt finds them: every attempt that failed before it removed the part. */
  function Cleaned(files: map<Path, Bytes>, dest: Path, failures: nat): map<Path, Bytes> {
    if failures == 0 then files else files - {PartOf(dest)}
  }

  /** The inner loop: every chunk is digested and then appended to the part. */
  method Receive<S(!new), D>(fs: FileSystem, h: Hasher<S, D>, part: Path, chunks: seq<Chunk>) returns (digest: S)
    requires Streaming(h)
    modifies fs
    ensures fs.files == old(fs.files)[part := Concat(chunks)]
    ensures digest == h.update(h.init, Concat(chunks))
  {
    fs.Write(part, []);
    digest := h.init;
    assert FedNothing(h, h.init);
    var i := 0;
    while i < |chunks|
      invariant 0 <= i <= |chunks|
      invariant fs.files == old(fs.files)[part := Concat(chunks[..i])]
      invariant digest == h.update(h.init, Concat(chunks[..i]))
    {
      assert chunks[..i + 1][..i] == chunks[..i];
      assert FedInPieces(h, h.init, Concat(chunks[..i]), chunks[i]);
      digest := h.update(digest, chunks[i]);
      fs.Write(part, fs.files[part] + chunks[i]);
      i := i + 1;
    }
    assert chunks[..i] == chunks;
  }

  lemma PartIsNotDest(dest: Path)
    ensures PartOf(dest) != dest
  {
    assert |PartOf(dest)| == |dest| + 5;
  }

  ghost function WithPart(files: map<Path, Bytes>, dest: Path, part: seq<Bytes>): map<Path, Bytes> {
    if part == [] then files else files[PartOf(dest) := part[0]]
  }

  /** The body of the `try`. */
  method TryOnce<S(!new), D(==)>(fs: FileSystem, h: Hasher<S, D>, reply: Reply, dest: Path, expected: D)
    returns (end: TryEnd)
    requires Streaming(h)
    modifies fs
    ensures end == TryEndOf(h, expected, reply)
    ensures end.Done? ==> fs.files == (old(fs.files) - {PartOf(dest)})[dest := end.body]
    ensures end.Mismatched? ==> fs.files == old(fs.files) - {PartOf(dest)}
    ensures end.Raised? ==> fs.files == WithPart(old(fs.files), dest, end.part)
  {
    var part := PartOf(dest);
    PartIsNotDest(dest);
    if !reply.Stream? {
      return Raised(if reply.Refused? then reply.fault else Caught, []);
    }
    var digest := Receive(fs, h, part, reply.chunks);
    if reply.end.Broken? {
      return Raised(reply.end.fault, [fs.files[part]]);
    }
    if h.hexdigest(digest) != expected {
      if !reply.end.removes {
        return Raised(Caught, [fs.files[part]]);
      }
      fs.Unlink(part);
      return Mismatched;
    }
    if !reply.end.renames {
      return Raised(Caught, [fs.files[part]]);
    }
    fs.Replace(part, dest);
    return Done(fs.files[dest]);
  }

  /**
    At most `attempts` replies are used, and all but the last of them were faults that the handler
    caught and cleaned up after. The last one decides: `dest` is written only from one complete
    reply whose digest is the expected one, and in every other case it is untouched. A part is left
    behind only when a removal fails or the handler does not catch what was raised.
   */
  method DownloadVerified<S(!new), D(==)>(
      fs: FileSystem, h: Hasher<S, D>, replies: seq<Reply>, dest: Path, expected: D, attempts: int)
    returns (outcome: Outcome, tries: nat)
    requires Streaming(h) && attempts <= |replies|
    modifies fs
    ensures tries == Tries(h, expected, replies, 0, attempts) <= Max(0, attempts)
    ensures forall i :: 0 <= i < tries - 1 ==> Judge(h, expected, replies[i]) == Retry
    ensures outcome == GaveUp ==> tries == Max(0, attempts) && fs.files == Cleaned(old(fs.files), dest, tries)
    ensures outcome == GaveUp && tries > 0 ==> Judge(h, expected, replies[tries - 1]) == Retry
    ensures outcome != GaveUp ==> tries > 0
    ensures outcome == Installed ==>
              && Judge(h, expected, replies[tries - 1]).Keep?
              && dest in fs.files && DigestOf(h, fs.files[dest]) == expected
              && fs.files == (old(fs.files) - {PartOf(dest)})[dest := Judge(h, expected, replies[tries - 1]).body]
    ensures outcome == DigestMismatch ==>
              Judge(h, expected, replies[tries - 1]) == Reject && fs.files == old(fs.files) - {PartOf(dest)}
    ensures outcome == Escaped ==>
              && Judge(h, expected, replies[tries - 1]).Escape?
              && fs.files == WithPart(Cleaned(old(fs.files), dest, tries - 1), dest,
                                      Judge(h, expected, replies[tries - 1]).part)
  {
    var attempt := 1;
    tries := 0;
    while attempt <= attempts
      invariant attempt == tries + 1 && tries <= Max(0, attempts)
      invariant tries + Tries(h, expected, replies, tries, attempts) == Tries(h, expected, replies, 0, attempts)
      invariant forall i :: 0 <= i < tries ==> Judge(h, expected, replies[i]) == Retry
      invariant fs.files == Cleaned(old(fs.files), dest, tries)
    {
      var end := TryOnce(fs, h, replies[tries], dest, expected);
      tries := tries + 1;
      match end {
        case Done(_) =>
          return Installed, tries;
        case Mismatched =>
          return DigestMismatch, tries;
        case Raised(fault, _) =>
          if fault.Uncaught? || !replies[tries - 1].cleans {
            return Escaped, tries;
          }
          fs.Unlink(PartOf(dest));
      }
      attempt := attempt + 1;
    }
    return GaveUp, tries;
  }

  /** The whole reply was received, and its digest is not the expected one. */
  ghost predicate IsMismatch<S, D>(h: Hasher<S, D>, expected: D, reply: Reply) {
    reply.Stream? && reply.end.EndOfStream? && DigestOf(h, Concat(reply.chunks)) != expected
  }

  /**
    A digest mismatch is refused for good exactly when the part can be removed at once. If that
    fails, the error is taken for a transport error: the download is tried again exactly when the
    handler's own removal succeeds.
   */
  lemma MismatchIsFinalExactly<S, D>(h: Hasher<S, D>, expected: D, reply: Reply)
    requires IsMismatch(h, expected, reply)
    ensures Judge(h, expected, reply) == Reject <==> reply.end.removes
    ensures Judge(h, expected, reply) == Retry <==> !reply.end.removes && reply.cleans
  {}

  /** Another reply is used after a mismatch, with attempts left, exactly when that one is retried. */
  lemma MismatchIsRetried<S, D>(
      h: Hasher<S, D>, expected: D, replies: seq<Reply>, i: nat, attempts: int)
    requires i + 1 < attempts <= |replies| && IsMismatch(h, expected, replies[i])
    ensures Tries(h, expected, replies, i, attempts) >= 2
       <==> !replies[i].end.removes && replies[i].cleans
  {
    MismatchIsFinalExactly(h, expected, replies[i]);
  }

  /** A mismatch whose part is removed at the second try only: the next reply is used. */
  lemma MismatchThenInstalled<S, D>(h: Hasher<S, D>, expected: D, bad: seq<Chunk>, good: seq<Chunk>)
    requires DigestOf(h, Concat(bad)) != expected && DigestOf(h, Concat(good)) == expected
    ensures var replies := [Stream(bad, EndOfStream(true, false), true), Stream(good, EndOfStream(true, true), true)];
            && Tries(h, expected, replies, 0, 2) == 2
            && Judge(h, expected, replies[1]) == Keep(Concat(good))
  {}

  /** The connection, the file or the stream failed with an error that the handler catches. */
  ghost predicate IsTransportFault(reply: Reply) {
    match reply
    case Refused(fault, _) => fault == Caught
    case Unwritable(_) => true
    case Stream(_, Broken(fault), _) => fault == Caught
    case Stream(_, EndOfStream(_, _), _) => false
  }

  /** The whole reply was received with the expected digest. */
  ghost predicate IsGenuine<S, D>(h: Hasher<S, D>, expected: D, reply: Reply) {
    reply.Stream? && reply.end.EndOfStream? && DigestOf(h, Concat(reply.chunks)) == expected
  }

  /**
    What is kept, and what is tried again: a genuine reply that can be renamed is kept; a transport
    fault, a failed rename, and a mismatch that cannot be removed at once are tried again, each
    exactly if the handler can clean up.
   */
  lemma VerdictExactly<S, D>(h: Hasher<S, D>, expected: D, reply: Reply)
    ensures Judge(h, expected, reply).Keep? <==> IsGenuine(h, expected, reply) && reply.end.renames
    ensures Judge(h, expected, reply).Keep? ==> Judge(h, expected, reply).body == Concat(reply.chunks)
    ensures Judge(h, expected, reply) == Retry
       <==> && reply.cleans
            && (|| IsTransportFault(reply)
                || (IsGenuine(h, expected, reply) && !reply.end.renames)
                || (IsMismatch(h, expected, reply) && !reply.end.removes))
  {}

  /** Transport faults that are cleaned up after, fewer than the attempts, and then a genuine reply. */
  lemma {:induction false} FaultsThenInstalled<S, D>(
      h: Hasher<S, D>, expected: D, replies: seq<Reply>, from: nat, n: nat, attempts: int)
    requires from <= n < attempts <= |replies|
    requires forall i :: from <= i < n ==> IsTransportFault(replies[i]) && replies[i].cleans
    requires IsGenuine(h, expected, replies[n]) && replies[n].end.renames
    ensures Tries(h, expected, replies, from, attempts) == n - from + 1
    ensures Judge(h, expected, replies[n]) == Keep(Concat(replies[n].chunks))
    decreases n - from
  {
    VerdictExactly(h, expected, replies[from]);
    if from < n {
      FaultsThenInstalled(h, expected, replies, from + 1, n, attempts);
    }
  }
}
