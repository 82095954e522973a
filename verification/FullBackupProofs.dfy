/** What a `.hsbak` file promises: it opens to what was written, and nothing
    else opens. */
module FullBackupProofs {
  import opened FullBackup
  import opened Sequences
  import opened Wrappers

  // ---- One frame ---------------------------------------------------------

  lemma ParseOfFrame(c: Crypto, key: Bytes, nonce: Bytes, chunk: Bytes, last: bool, after: Bytes)
    requires Ideal(c) && |chunk| <= CHUNK_SIZE
    ensures var frame := FrameFor(c, key, nonce, chunk, Flag(last));
            var cipher := c.seal(key, nonce, chunk, Flag(last));
            && ParseFrame(frame + after) == Some((Flag(last), cipher))
            && (frame + after)[5 + |cipher|..] == after
  {
    var cipher := c.seal(key, nonce, chunk, Flag(last));
    var rest := FrameFor(c, key, nonce, chunk, Flag(last)) + after;
    assert rest == Flag(last) + Pack32(|cipher|) + cipher + after;
    assert rest[..1] == Flag(last) && rest[1..5] == Pack32(|cipher|);
    UnpackPack(|cipher|);
    assert rest[5..5 + |cipher|] == cipher;
  }

  /** A frame followed by `after` is the only input that parses to its flag and
      ciphertext and leaves `after`. */
  lemma FrameDecides(c: Crypto, key: Bytes, nonce: Bytes, chunk: Bytes, last: bool, after: Bytes, rest: Bytes)
    requires Ideal(c) && |chunk| <= CHUNK_SIZE
    ensures var frame := FrameFor(c, key, nonce, chunk, Flag(last));
            var cipher := c.seal(key, nonce, chunk, Flag(last));
            rest == frame + after <==>
              ParseFrame(rest) == Some((Flag(last), cipher)) && rest[5 + |cipher|..] == after
  {
    ParseOfFrame(c, key, nonce, chunk, last, after);
    if ParseFrame(rest).Some? {
      PackUnpack(rest[1..5]);
      var (flag, cipher) := ParseFrame(rest).value;
      assert rest == flag + Pack32(|cipher|) + cipher + rest[5 + |cipher|..];
    }
  }

  // ---- One file --------------------------------------------------------------

  /** Under `key` and the nonces of `prefix`, the log holds exactly what encrypting the
      first `n` chunks issues. */
  ghost predicate Knows(c: Crypto, log: seq<Issue>, key: Bytes, prefix: Bytes, chunks: seq<Bytes>, n: nat)
    requires Countable(chunks, n)
  {
    && (forall i :: 0 <= i < n ==> IssueAt(c, key, prefix, chunks, i) in log)
    && (forall issue: Issue, i: nat ::
          issue in log && i < COUNTER_LIMIT && issue.key == key && issue.nonce == Nonce(prefix, i) ==>
            i < n && issue == IssueAt(c, key, prefix, chunks, i))
  }

  lemma OpenKnown(c: Crypto, log: seq<Issue>, key: Bytes, prefix: Bytes, chunks: seq<Bytes>, n: nat, i: nat,
                  cipher: Bytes, flag: Bytes)
    requires Countable(chunks, n) && Knows(c, log, key, prefix, chunks, n) && i < COUNTER_LIMIT
    ensures Open(log, key, Nonce(prefix, i), cipher, flag) ==
            if i < n && cipher == IssueAt(c, key, prefix, chunks, i).cipher && flag == Flag(i + 1 == |chunks|)
            then Some(chunks[i]) else None
  {
    OpenIsIssued(log, key, Nonce(prefix, i), cipher, flag);
    if i < n {
      assert IssueAt(c, key, prefix, chunks, i) in log;
    }
  }

  /** One pass of the reading loop at chunk `i`: only the frame written there
      gets past it. */
  lemma ReadStep(c: Crypto, log: seq<Issue>, key: Bytes, prefix: Bytes, chunks: seq<Bytes>, n: nat, i: nat, rest: Bytes)
    requires Countable(chunks, n) && Knows(c, log, key, prefix, chunks, n) && i < n
    ensures var issue := IssueAt(c, key, prefix, chunks, i);
            var after := if ParseFrame(rest).Some? then rest[5 + |ParseFrame(rest).value.1|..] else [];
            DecryptFrames(log, key, prefix, i, rest) ==
            if ParseFrame(rest).None? then Decrypted([], Some(Truncated))
            else if ParseFrame(rest).value != (issue.ad, issue.cipher) then Decrypted([], Some(WrongOrDamaged))
            else if i + 1 == |chunks| then Decrypted(chunks[i], if after != [] then Some(DataAfterEnd) else None)
            else Prepend(chunks[i], DecryptFrames(log, key, prefix, i + 1, after))
  {
    if ParseFrame(rest).Some? {
      OpenKnown(c, log, key, prefix, chunks, n, i, ParseFrame(rest).value.1, ParseFrame(rest).value.0);
    }
  }

  /** From chunk `i` on, reading `rest` succeeds on exactly the frames that were written,
      and gives back the chunks. */
  ghost predicate ReadsExactly(c: Crypto, log: seq<Issue>, key: Bytes, prefix: Bytes, chunks: seq<Bytes>, i: nat,
                               rest: Bytes)
    requires Framable(c, chunks) && Countable(chunks, |chunks|) && i < |chunks|
  {
    var d := DecryptFrames(log, key, prefix, i, rest);
    && (d.error.None? <==> rest == Frames(c, key, prefix, chunks, i, |chunks|))
    && (d.error.None? ==> d.written == Flatten(chunks[i..]))
  }

  lemma LastFrameExact(c: Crypto, log: seq<Issue>, key: Bytes, prefix: Bytes, chunks: seq<Bytes>, i: nat, rest: Bytes)
    requires Framable(c, chunks) && Countable(chunks, |chunks|) && Knows(c, log, key, prefix, chunks, |chunks|)
    requires i + 1 == |chunks|
    ensures ReadsExactly(c, log, key, prefix, chunks, i, rest)
  {
    ReadStep(c, log, key, prefix, chunks, |chunks|, i, rest);
    FrameDecides(c, key, Nonce(prefix, i), chunks[i], true, [], rest);
    assert Frames(c, key, prefix, chunks, i, |chunks|) == Frame(c, key, prefix, chunks, i) + [];
    FlattenCons(chunks[i], []);
    assert chunks[i..] == [chunks[i]] + [];
  }

  lemma InnerFrameExact(c: Crypto, log: seq<Issue>, key: Bytes, prefix: Bytes, chunks: seq<Bytes>, i: nat, rest: Bytes)
    requires Framable(c, chunks) && Countable(chunks, |chunks|) && Knows(c, log, key, prefix, chunks, |chunks|)
    requires i + 1 < |chunks|
    requires ParseFrame(rest).Some? ==>
               ReadsExactly(c, log, key, prefix, chunks, i + 1, rest[5 + |ParseFrame(rest).value.1|..])
    ensures ReadsExactly(c, log, key, prefix, chunks, i, rest)
  {
    var tail := Frames(c, key, prefix, chunks, i + 1, |chunks|);
    ReadStep(c, log, key, prefix, chunks, |chunks|, i, rest);
    FrameDecides(c, key, Nonce(prefix, i), chunks[i], false, tail, rest);
    FlattenCons(chunks[i], chunks[i + 1..]);
    assert chunks[i..] == [chunks[i]] + chunks[i + 1..];
  }

  lemma {:induction false} FramesAccepted(c: Crypto, log: seq<Issue>, key: Bytes, prefix: Bytes,
                                          chunks: seq<Bytes>, i: nat, rest: Bytes)
    requires Framable(c, chunks) && Countable(chunks, |chunks|) && Knows(c, log, key, prefix, chunks, |chunks|)
    requires i < |chunks|
    ensures ReadsExactly(c, log, key, prefix, chunks, i, rest)
    decreases |chunks| - i
  {
    if i + 1 == |chunks| {
      LastFrameExact(c, log, key, prefix, chunks, i, rest);
    } else {
      if ParseFrame(rest).Some? {
        FramesAccepted(c, log, key, prefix, chunks, i + 1, rest[5 + |ParseFrame(rest).value.1|..]);
      }
      InnerFrameExact(c, log, key, prefix, chunks, i, rest);
    }
  }

  /** Without the last chunk, nothing opens to the end. */
  lemma {:induction false} UnfinishedRefused(c: Crypto, log: seq<Issue>, key: Bytes, prefix: Bytes,
                                             chunks: seq<Bytes>, n: nat, i: nat, rest: Bytes)
    requires Countable(chunks, n) && Knows(c, log, key, prefix, chunks, n) && i <= n < |chunks|
    ensures DecryptFrames(log, key, prefix, i, rest).error.Some?
    decreases n - i
  {
    if ParseFrame(rest).Some? && i < COUNTER_LIMIT {
      if i < n {
        ReadStep(c, log, key, prefix, chunks, n, i, rest);
        UnfinishedRefused(c, log, key, prefix, chunks, n, i + 1, rest[5 + |ParseFrame(rest).value.1|..]);
      } else {
        OpenKnown(c, log, key, prefix, chunks, n, i, ParseFrame(rest).value.1, ParseFrame(rest).value.0);
      }
    }
  }

  // ---- Everything ever written -------------------------------------------------

  lemma {:induction false} IssuesMembers(c: Crypto, key: Bytes, prefix: Bytes, chunks: seq<Bytes>, n: nat, issue: Issue)
    requires Countable(chunks, n)
    ensures issue in Issues(c, key, prefix, chunks, n) <==>
            exists k :: 0 <= k < n && issue == IssueAt(c, key, prefix, chunks, k)
  {
    if n > 0 {
      IssuesMembers(c, key, prefix, chunks, n - 1, issue);
    }
  }

  /** All the writer ever did, in order. */
  ghost function History(c: Crypto, backups: seq<Backup>): seq<Issue>
    requires forall b :: b in backups ==> Writable(c, b)
  {
    if backups == [] then []
    else History(c, backups[..|backups| - 1]) + IssuesOf(c, backups[|backups| - 1])
  }

  /** No two runs drew the same salt and nonce prefix for one passphrase. */
  ghost predicate Fresh(backups: seq<Backup>) {
    forall i, j :: 0 <= i < j < |backups| ==>
      !SameHeader(backups[i], backups[j].passphrase, backups[j].salt, backups[j].prefix)
  }

  predicate SameHeader(b: Backup, passphrase: string, salt: Bytes, prefix: Bytes) {
    b.passphrase == passphrase && b.salt == salt && b.prefix == prefix
  }

  lemma {:induction false} HistoryMembers(c: Crypto, backups: seq<Backup>, issue: Issue)
    requires forall b :: b in backups ==> Writable(c, b)
    ensures issue in History(c, backups) <==> exists b :: b in backups && issue in IssuesOf(c, b)
  {
    if backups != [] {
      var before, last := backups[..|backups| - 1], backups[|backups| - 1];
      HistoryMembers(c, before, issue);
      assert backups == before + [last];
    }
  }

  /** The key and nonce of an issue tell which backup it belongs to. */
  lemma IssueOrigin(c: Crypto, b: Backup, issue: Issue, passphrase: string, salt: Bytes, prefix: Bytes, i: nat)
    requires Ideal(c) && Writable(c, b) && issue in IssuesOf(c, b)
    requires issue.key == c.derive(passphrase, salt)
    requires |prefix| == NONCE_PREFIX_LENGTH && i < COUNTER_LIMIT && issue.nonce == Nonce(prefix, i)
    ensures SameHeader(b, passphrase, salt, prefix)
    ensures i < b.issued && issue == IssueAt(c, KeyOf(c, b), b.prefix, Chunks(b.source), i)
  {
    var chunks := Chunks(b.source);
    IssuesMembers(c, KeyOf(c, b), b.prefix, chunks, b.issued, issue);
    var k: nat :| k < b.issued && issue == IssueAt(c, KeyOf(c, b), b.prefix, chunks, k);
    assert Nonce(prefix, i)[..NONCE_PREFIX_LENGTH] == prefix;
    assert Nonce(b.prefix, k)[..NONCE_PREFIX_LENGTH] == b.prefix;
    assert Nonce(prefix, i)[NONCE_PREFIX_LENGTH..] == Pack32(i);
    assert Nonce(b.prefix, k)[NONCE_PREFIX_LENGTH..] == Pack32(k);
    UnpackPack(i);
    UnpackPack(k);
  }

  lemma {:induction false} HistoryKnows(c: Crypto, backups: seq<Backup>, b: Backup)
    requires Ideal(c) && (forall b :: b in backups ==> Writable(c, b)) && Fresh(backups) && b in backups
    ensures Knows(c, History(c, backups), KeyOf(c, b), b.prefix, Chunks(b.source), b.issued)
  {
    var log, chunks := History(c, backups), Chunks(b.source);
    forall i | 0 <= i < b.issued
      ensures IssueAt(c, KeyOf(c, b), b.prefix, chunks, i) in log
    {
      OwnIssued(c, backups, b, i);
    }
    forall issue: Issue, i: nat |
      issue in log && i < COUNTER_LIMIT && issue.key == KeyOf(c, b) && issue.nonce == Nonce(b.prefix, i)
      ensures i < b.issued && issue == IssueAt(c, KeyOf(c, b), b.prefix, chunks, i)
    {
      OnlyItsOwn(c, backups, b, issue, i);
    }
  }

  lemma OwnIssued(c: Crypto, backups: seq<Backup>, b: Backup, i: nat)
    requires (forall b :: b in backups ==> Writable(c, b)) && b in backups && Writable(c, b) && i < b.issued
    ensures IssueAt(c, KeyOf(c, b), b.prefix, Chunks(b.source), i) in History(c, backups)
  {
    var issue := IssueAt(c, KeyOf(c, b), b.prefix, Chunks(b.source), i);
    IssuesMembers(c, KeyOf(c, b), b.prefix, Chunks(b.source), b.issued, issue);
    HistoryMembers(c, backups, issue);
  }

  /** Of all that was ever issued, only a backup's own chunks carry its key and nonces. */
  lemma OnlyItsOwn(c: Crypto, backups: seq<Backup>, b: Backup, issue: Issue, i: nat)
    requires Ideal(c) && (forall b :: b in backups ==> Writable(c, b)) && Fresh(backups) && b in backups
    requires issue in History(c, backups) && i < COUNTER_LIMIT
    requires issue.key == KeyOf(c, b) && issue.nonce == Nonce(b.prefix, i)
    ensures i < b.issued && issue == IssueAt(c, KeyOf(c, b), b.prefix, Chunks(b.source), i)
  {
    HistoryMembers(c, backups, issue);
    var b' :| b' in backups && issue in IssuesOf(c, b');
    IssueOrigin(c, b', issue, b.passphrase, b.salt, b.prefix, i);
    var j :| 0 <= j < |backups| && backups[j] == b;
    var j' :| 0 <= j' < |backups| && backups[j'] == b';
    assert j == j';
  }

  /** Nothing was issued for a header no run used: the first frame does not open. */
  lemma {:induction false} UnknownHeader(c: Crypto, backups: seq<Backup>, passphrase: string, salt: Bytes,
                                         prefix: Bytes, rest: Bytes)
    requires Ideal(c) && forall b :: b in backups ==> Writable(c, b)
    requires |prefix| == NONCE_PREFIX_LENGTH
    requires forall b :: b in backups ==> !SameHeader(b, passphrase, salt, prefix)
    ensures DecryptFrames(History(c, backups), c.derive(passphrase, salt), prefix, 0, rest) ==
            Decrypted([], Some(if ParseFrame(rest).Some? then WrongOrDamaged else Truncated))
  {
    if ParseFrame(rest).Some? {
      var log, key, nonce := History(c, backups), c.derive(passphrase, salt), Nonce(prefix, 0);
      var (flag, cipher) := ParseFrame(rest).value;
      OpenIsIssued(log, key, nonce, cipher, flag);
      var r := Open(log, key, nonce, cipher, flag);
      if r.Some? {
        var issue := Issue(key, nonce, r.value, flag, cipher);
        HistoryMembers(c, backups, issue);
        var b :| b in backups && issue in IssuesOf(c, b);
        IssueOrigin(c, b, issue, passphrase, salt, prefix, 0);
        assert false;
      }
    }
  }

  lemma HeaderSplits(c: Crypto, b: Backup, rest: Bytes)
    requires Writable(c, b)
    ensures var file := MAGIC + b.salt + b.prefix + rest;
            var header := Take(file, HEADER_LENGTH);
            && MAGIC <= header && |header| == HEADER_LENGTH
            && header[|MAGIC|..|MAGIC| + SALT_LENGTH] == b.salt
            && header[|MAGIC| + SALT_LENGTH..] == b.prefix
            && Drop(file, HEADER_LENGTH) == rest
  {
    var file := MAGIC + b.salt + b.prefix + rest;
    assert file[..|MAGIC|] == MAGIC;
    assert file[|MAGIC|..|MAGIC| + SALT_LENGTH] == b.salt;
    assert file[|MAGIC| + SALT_LENGTH..HEADER_LENGTH] == b.prefix;
    assert file[HEADER_LENGTH..] == rest;
    assert Take(file, HEADER_LENGTH) == file[..HEADER_LENGTH];
    assert file[..HEADER_LENGTH][|MAGIC|..|MAGIC| + SALT_LENGTH] == file[|MAGIC|..|MAGIC| + SALT_LENGTH];
  }

  /** A file with the header of a run opens exactly when the run was finished and the
      file is all of what it wrote. */
  lemma {:induction false} SameHeaderAccepted(c: Crypto, backups: seq<Backup>, b: Backup, rest: Bytes)
    requires Ideal(c) && (forall b :: b in backups ==> Writable(c, b)) && Fresh(backups) && b in backups
    ensures var file := MAGIC + b.salt + b.prefix + rest;
            var d := Decrypt(c, History(c, backups), b.passphrase, file);
            && (d.error.None? <==> Finished(b) && file == FileOf(c, b))
            && (d.error.None? ==> d.written == b.source)
  {
    var log, chunks := History(c, backups), Chunks(b.source);
    HeaderSplits(c, b, rest);
    HistoryKnows(c, backups, b);
    if Finished(b) {
      FramesAccepted(c, log, KeyOf(c, b), b.prefix, chunks, 0, rest);
      assert chunks[0..] == chunks;
      ConcatChunks(b.source);
      HeaderSplits(c, b, Frames(c, KeyOf(c, b), b.prefix, chunks, 0, b.issued));
    } else {
      UnfinishedRefused(c, log, KeyOf(c, b), b.prefix, chunks, b.issued, 0, rest);
    }
  }

  /** Under a passphrase, exactly the files that were written with it to the end are
      accepted, each giving back its own source; a truncated, reordered, spliced
      or otherwise edited file is refused. */
  lemma {:induction false} Authentic(c: Crypto, backups: seq<Backup>, passphrase: string, file: Bytes)
    requires Ideal(c) && (forall b :: b in backups ==> Writable(c, b)) && Fresh(backups)
    ensures var d := Decrypt(c, History(c, backups), passphrase, file);
            && (d.error.None? <==>
                  exists b :: b in backups && b.passphrase == passphrase && Finished(b) && file == FileOf(c, b))
            && (forall b :: b in backups && b.passphrase == passphrase && Finished(b) && file == FileOf(c, b) ==>
                  d.error.None? && d.written == b.source)
  {
    var d := Decrypt(c, History(c, backups), passphrase, file);
    forall b | b in backups && b.passphrase == passphrase && Finished(b) && file == FileOf(c, b)
      ensures d.error.None? && d.written == b.source
    {
      SameHeaderAccepted(c, backups, b, Frames(c, KeyOf(c, b), b.prefix, Chunks(b.source), 0, b.issued));
    }
    if d.error.None? {
      var b := AcceptedRun(c, backups, passphrase, file);
      assert b in backups && b.passphrase == passphrase && Finished(b) && file == FileOf(c, b);
    }
  }

  lemma AcceptedRun(c: Crypto, backups: seq<Backup>, passphrase: string, file: Bytes) returns (b: Backup)
    requires Ideal(c) && (forall b :: b in backups ==> Writable(c, b)) && Fresh(backups)
    requires Decrypt(c, History(c, backups), passphrase, file).error.None?
    ensures b in backups && b.passphrase == passphrase && Finished(b) && file == FileOf(c, b)
  {
    var salt, prefix, rest := AcceptedHeader(c, History(c, backups), passphrase, file);
    if forall b' :: b' in backups ==> !SameHeader(b', passphrase, salt, prefix) {
      UnknownHeader(c, backups, passphrase, salt, prefix, rest);
    }
    b :| b in backups && SameHeader(b, passphrase, salt, prefix);
    SameHeaderAccepted(c, backups, b, rest);
  }

  /** An accepted file has a whole header, and its frames open. */
  lemma AcceptedHeader(c: Crypto, log: seq<Issue>, passphrase: string, file: Bytes)
    returns (salt: Bytes, prefix: Bytes, rest: Bytes)
    requires Decrypt(c, log, passphrase, file).error.None?
    ensures |prefix| == NONCE_PREFIX_LENGTH && file == MAGIC + salt + prefix + rest
    ensures DecryptFrames(log, c.derive(passphrase, salt), prefix, 0, rest).error.None?
  {
    var header := Take(file, HEADER_LENGTH);
    rest := Drop(file, HEADER_LENGTH);
    salt, prefix := header[|MAGIC|..|MAGIC| + SALT_LENGTH], header[|MAGIC| + SALT_LENGTH..];
    assert |header| == HEADER_LENGTH by {
      assert |header| < HEADER_LENGTH ==> ParseFrame(rest).None?;
    }
    assert header == MAGIC + salt + prefix && file == header + rest;
  }

  /** A run that was cut short, or ran out of counter values, leaves nothing that opens:
      no bytes whatever with its header are accepted. */
  lemma UnfinishedNeverAccepted(c: Crypto, backups: seq<Backup>, b: Backup, rest: Bytes)
    requires Ideal(c) && (forall b :: b in backups ==> Writable(c, b)) && Fresh(backups) && b in backups
    requires !Finished(b)
    ensures Decrypt(c, History(c, backups), b.passphrase, MAGIC + b.salt + b.prefix + rest).error.Some?
  {
    SameHeaderAccepted(c, backups, b, rest);
  }

  // ---- How damage is reported -------------------------------------------------

  /** What was written from chunk `i` on, cut anywhere or left without its last chunk,
      reads as truncated. */
  lemma {:induction false} TruncatedFrames(c: Crypto, log: seq<Issue>, key: Bytes, prefix: Bytes,
                                           chunks: seq<Bytes>, n: nat, i: nat, m: nat)
    requires Framable(c, chunks) && Countable(chunks, n) && Knows(c, log, key, prefix, chunks, n) && i <= n
    requires m <= |Frames(c, key, prefix, chunks, i, n)|
    requires n < |chunks| || m < |Frames(c, key, prefix, chunks, i, n)|
    ensures DecryptFrames(log, key, prefix, i, Frames(c, key, prefix, chunks, i, n)[..m]).error == Some(Truncated)
    decreases n - i
  {
    if i < n {
      var frame, tail := Frame(c, key, prefix, chunks, i), Frames(c, key, prefix, chunks, i + 1, n);
      if m < |frame| {
        TruncatedInFrame(c, log, key, prefix, chunks, n, i, m);
      } else {
        TruncatedFrames(c, log, key, prefix, chunks, n, i + 1, m - |frame|);
        ReadPast(c, log, key, prefix, chunks, n, i, tail[..m - |frame|]);
        CutTail(frame, tail, m);
      }
    }
  }

  lemma TruncatedInFrame(c: Crypto, log: seq<Issue>, key: Bytes, prefix: Bytes, chunks: seq<Bytes>, n: nat, i: nat,
                         m: nat)
    requires Framable(c, chunks) && Countable(chunks, n) && i < n && m < |Frame(c, key, prefix, chunks, i)|
    ensures m <= |Frames(c, key, prefix, chunks, i, n)|
    ensures DecryptFrames(log, key, prefix, i, Frames(c, key, prefix, chunks, i, n)[..m]).error == Some(Truncated)
  {
    var frame, tail := Frame(c, key, prefix, chunks, i), Frames(c, key, prefix, chunks, i + 1, n);
    assert (frame + tail)[..m] == frame[..m];
    CutFrame(c, key, Nonce(prefix, i), chunks[i], i + 1 == |chunks|, m);
  }

  lemma CutTail(a: Bytes, b: Bytes, m: nat)
    requires |a| <= m <= |a| + |b|
    ensures (a + b)[..m] == a + b[..m - |a|]
  {
  }

  /** A frame that is cut short does not parse. */
  lemma CutFrame(c: Crypto, key: Bytes, nonce: Bytes, chunk: Bytes, last: bool, m: nat)
    requires Ideal(c) && |chunk| <= CHUNK_SIZE && m < |FrameFor(c, key, nonce, chunk, Flag(last))|
    ensures ParseFrame(FrameFor(c, key, nonce, chunk, Flag(last))[..m]).None?
  {
    var frame := FrameFor(c, key, nonce, chunk, Flag(last));
    ParseOfFrame(c, key, nonce, chunk, last, []);
    assert frame + [] == frame;
  }

  /** The frame of chunk `i` is read and what follows it is gone on with. */
  lemma ReadPast(c: Crypto, log: seq<Issue>, key: Bytes, prefix: Bytes, chunks: seq<Bytes>, n: nat, i: nat, rest: Bytes)
    requires Framable(c, chunks) && Countable(chunks, n) && Knows(c, log, key, prefix, chunks, n) && i < n
    ensures DecryptFrames(log, key, prefix, i, Frame(c, key, prefix, chunks, i) + rest) ==
            if i + 1 == |chunks| then Decrypted(chunks[i], if rest != [] then Some(DataAfterEnd) else None)
            else Prepend(chunks[i], DecryptFrames(log, key, prefix, i + 1, rest))
  {
    ReadStep(c, log, key, prefix, chunks, n, i, Frame(c, key, prefix, chunks, i) + rest);
    ParseOfFrame(c, key, Nonce(prefix, i), chunks[i], i + 1 == |chunks|, rest);
  }

  /** Every proper prefix of a file, and whatever an unfinished run leaves, is refused as
      incomplete, or as no backup at all when not even the salt is there. */
  lemma {:induction false} TruncationReported(c: Crypto, backups: seq<Backup>, b: Backup, n: nat)
    requires Ideal(c) && (forall b :: b in backups ==> Writable(c, b)) && Fresh(backups) && b in backups
    requires n <= |FileOf(c, b)| && (n < |FileOf(c, b)| || !Finished(b))
    ensures Decrypt(c, History(c, backups), b.passphrase, FileOf(c, b)[..n]).error ==
            Some(if n < |MAGIC| + SALT_LENGTH then NotABackup else Truncated)
  {
    var frames := Frames(c, KeyOf(c, b), b.prefix, Chunks(b.source), 0, b.issued);
    var file := FileOf(c, b)[..n];
    if n >= HEADER_LENGTH {
      var m := n - HEADER_LENGTH;
      assert file == MAGIC + b.salt + b.prefix + frames[..m];
      HeaderSplits(c, b, frames[..m]);
      HistoryKnows(c, backups, b);
      TruncatedFrames(c, History(c, backups), KeyOf(c, b), b.prefix, Chunks(b.source), b.issued, 0, m);
    } else {
      assert Take(file, HEADER_LENGTH) == file && Drop(file, HEADER_LENGTH) == [];
      assert n >= |MAGIC| ==> file[..|MAGIC|] == MAGIC;
    }
  }

  lemma {:induction false} TrailingFrames(c: Crypto, log: seq<Issue>, key: Bytes, prefix: Bytes,
                                          chunks: seq<Bytes>, i: nat, extra: Bytes)
    requires Framable(c, chunks) && Countable(chunks, |chunks|) && Knows(c, log, key, prefix, chunks, |chunks|)
    requires i < |chunks| && extra != []
    ensures DecryptFrames(log, key, prefix, i, Frames(c, key, prefix, chunks, i, |chunks|) + extra).error ==
            Some(DataAfterEnd)
    decreases |chunks| - i
  {
    var frame, tail := Frame(c, key, prefix, chunks, i), Frames(c, key, prefix, chunks, i + 1, |chunks|);
    Joined(frame, tail, extra);
    ReadPast(c, log, key, prefix, chunks, |chunks|, i, tail + extra);
    if i + 1 < |chunks| {
      TrailingFrames(c, log, key, prefix, chunks, i + 1, extra);
    }
  }

  /** Anything appended to a file is reported as data after its end. */
  lemma {:induction false} TrailingDataReported(c: Crypto, backups: seq<Backup>, b: Backup, extra: Bytes)
    requires Ideal(c) && (forall b :: b in backups ==> Writable(c, b)) && Fresh(backups) && b in backups
    requires Finished(b) && extra != []
    ensures Decrypt(c, History(c, backups), b.passphrase, FileOf(c, b) + extra).error == Some(DataAfterEnd)
  {
    var frames := Frames(c, KeyOf(c, b), b.prefix, Chunks(b.source), 0, b.issued);
    assert FileOf(c, b) + extra == MAGIC + b.salt + b.prefix + (frames + extra);
    HeaderSplits(c, b, frames + extra);
    HistoryKnows(c, backups, b);
    TrailingFrames(c, History(c, backups), KeyOf(c, b), b.prefix, Chunks(b.source), 0, extra);
  }

  /** A passphrase that was never used with this header opens nothing. */
  lemma {:induction false} WrongPassphraseReported(c: Crypto, backups: seq<Backup>, b: Backup, passphrase: string)
    requires Ideal(c) && (forall b :: b in backups ==> Writable(c, b)) && b in backups && b.issued > 0
    requires forall b' :: b' in backups ==> !SameHeader(b', passphrase, b.salt, b.prefix)
    ensures Decrypt(c, History(c, backups), passphrase, FileOf(c, b)) == Decrypted([], Some(WrongOrDamaged))
  {
    var chunks := Chunks(b.source);
    var frames := Frames(c, KeyOf(c, b), b.prefix, chunks, 0, b.issued);
    HeaderSplits(c, b, frames);
    UnknownHeader(c, backups, passphrase, b.salt, b.prefix, frames);
    ParseOfFrame(c, KeyOf(c, b), Nonce(b.prefix, 0), chunks[0], 1 == |chunks|,
                 Frames(c, KeyOf(c, b), b.prefix, chunks, 1, b.issued));
  }

  /** One more run of the writer, finished or not: its ciphertexts extend the history, so
      the lemmas above speak about what it wrote too. */
  lemma {:induction false} HistoryGrows(c: Crypto, backups: seq<Backup>, b: Backup, before: Bytes, after: Bytes,
                                        issuedAfter: seq<Issue>)
    requires forall b :: b in backups ==> Writable(c, b)
    requires Wrote(c, b, before, after, History(c, backups), issuedAfter)
    ensures (forall b' :: b' in backups + [b] ==> Writable(c, b'))
    ensures issuedAfter == History(c, backups + [b])
  {
    assert (backups + [b])[..|backups|] == backups;
  }

  lemma {:induction false} FramesAreABackup(log: seq<Issue>, key: Bytes, prefix: Bytes, counter: nat, rest: Bytes)
    ensures DecryptFrames(log, key, prefix, counter, rest).error != Some(NotABackup)
    decreases |rest|
  {
    var frame := ParseFrame(rest);
    if frame.Some? && counter < COUNTER_LIMIT {
      FramesAreABackup(log, key, prefix, counter + 1, rest[5 + |frame.value.1|..]);
    }
  }

  /** Exactly a file that does not begin with the magic bytes, or ends before the salt does,
      is no backup; nothing of it is written out. */
  lemma NotABackupIff(c: Crypto, log: seq<Issue>, passphrase: string, file: Bytes)
    ensures Decrypt(c, log, passphrase, file).error == Some(NotABackup) <==>
              |file| < |MAGIC| + SALT_LENGTH || exists i :: 0 <= i < |MAGIC| && file[i] != MAGIC[i]
    ensures Decrypt(c, log, passphrase, file).error == Some(NotABackup) ==>
              Decrypt(c, log, passphrase, file).written == []
  {
    var header := Take(file, HEADER_LENGTH);
    if MAGIC <= header && |header| >= |MAGIC| + SALT_LENGTH {
      FramesAreABackup(log, c.derive(passphrase, header[|MAGIC|..|MAGIC| + SALT_LENGTH]),
                       header[|MAGIC| + SALT_LENGTH..], 0, Drop(file, HEADER_LENGTH));
      assert forall i :: 0 <= i < |MAGIC| ==> file[i] == header[i] == MAGIC[i];
    }
  }

  /** A frame of any flag and any bytes in the place of a ciphertext. */
  function AnyFrame(flag: Bytes, cipher: Bytes): Bytes
    requires |cipher| < COUNTER_LIMIT
  {
    flag + Pack32(|cipher|) + cipher
  }

  lemma ParseOfAny(flag: Bytes, cipher: Bytes, after: Bytes)
    requires |flag| == 1 && |cipher| < COUNTER_LIMIT
    ensures ParseFrame(AnyFrame(flag, cipher) + after) == Some((flag, cipher))
  {
    var rest := AnyFrame(flag, cipher) + after;
    assert rest[..1] == flag && rest[1..5] == Pack32(|cipher|);
    UnpackPack(|cipher|);
    assert rest[5..5 + |cipher|] == cipher;
  }

  lemma {:induction false} EditedFrames(c: Crypto, log: seq<Issue>, key: Bytes, prefix: Bytes, chunks: seq<Bytes>,
                                        n: nat, i: nat, k: nat, flag: Bytes, cipher: Bytes, after: Bytes)
    requires Framable(c, chunks) && Countable(chunks, n) && Knows(c, log, key, prefix, chunks, n) && i <= k < n
    requires |flag| == 1 && |cipher| < COUNTER_LIMIT
    requires var issue := IssueAt(c, key, prefix, chunks, k); flag != issue.ad || cipher != issue.cipher
    ensures DecryptFrames(log, key, prefix, i,
                          Frames(c, key, prefix, chunks, i, k) + (AnyFrame(flag, cipher) + after)) ==
            Decrypted(Flatten(chunks[i..k]), Some(WrongOrDamaged))
    decreases k - i
  {
    var edited := AnyFrame(flag, cipher) + after;
    if i == k {
      assert Frames(c, key, prefix, chunks, i, k) + edited == edited;
      ParseOfAny(flag, cipher, after);
      ReadStep(c, log, key, prefix, chunks, n, i, edited);
    } else {
      var frame, tail := Frame(c, key, prefix, chunks, i), Frames(c, key, prefix, chunks, i + 1, k);
      EditedFrames(c, log, key, prefix, chunks, n, i + 1, k, flag, cipher, after);
      Joined(frame, tail, edited);
      ReadPast(c, log, key, prefix, chunks, n, i, tail + edited);
      FlattenFrom(chunks, i, k);
    }
  }

  lemma FlattenFrom(chunks: seq<Bytes>, i: nat, k: nat)
    requires i < k <= |chunks|
    ensures Flatten(chunks[i..k]) == chunks[i] + Flatten(chunks[i + 1..k])
  {
    FlattenCons(chunks[i], chunks[i + 1..k]);
    assert chunks[i..k] == [chunks[i]] + chunks[i + 1..k];
  }

  /** A frame whose flag or ciphertext is not the one written at its place is reported as
      damage, whatever comes after it; the chunks before it are all that is written out. */
  lemma EditedFrameReported(c: Crypto, backups: seq<Backup>, b: Backup, k: nat, flag: Bytes, cipher: Bytes,
                            after: Bytes)
    requires Ideal(c) && (forall b :: b in backups ==> Writable(c, b)) && Fresh(backups) && b in backups
    requires Writable(c, b) && k < b.issued && |flag| == 1 && |cipher| < COUNTER_LIMIT
    requires var issue := IssueAt(c, KeyOf(c, b), b.prefix, Chunks(b.source), k);
             flag != issue.ad || cipher != issue.cipher
    ensures var before := Frames(c, KeyOf(c, b), b.prefix, Chunks(b.source), 0, k);
            Decrypt(c, History(c, backups), b.passphrase,
                    MAGIC + b.salt + b.prefix + (before + (AnyFrame(flag, cipher) + after))) ==
            Decrypted(Flatten(Chunks(b.source)[..k]), Some(WrongOrDamaged))
  {
    var before := Frames(c, KeyOf(c, b), b.prefix, Chunks(b.source), 0, k);
    HeaderSplits(c, b, before + (AnyFrame(flag, cipher) + after));
    HistoryKnows(c, backups, b);
    EditedFrames(c, History(c, backups), KeyOf(c, b), b.prefix, Chunks(b.source), b.issued, 0, k, flag, cipher, after);
  }
}
