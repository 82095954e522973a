/** The `.hsbak` container: magic, salt and nonce prefix, then frames of
    flag, length and ciphertext.

    AES-GCM is the ideal authenticated cipher of RFC 5116: `seal` may be any
    function of its inputs that adds a tag, and opening looks the ciphertext up
    among the ones that were issued. Nothing is assumed about `seal` beyond its
    length; that a file opens to what was sealed rests on the nonces being
    distinct, which is proved. */
module FullBackup {
  import opened Octets
  import opened Sequences
  import opened Wrappers

  type Bytes = seq<Byte>

  const MAGIC: Bytes := [72, 83, 66, 65, 75, 49, 10]  // "HSBAK1\n"
  const SALT_LENGTH := 16
  const NONCE_PREFIX_LENGTH := 8
  const HEADER_LENGTH := 31
  const CHUNK_SIZE := 1024 * 1024
  const TAG_LENGTH := 16
  const COUNTER_LIMIT := 0x1_0000_0000

  datatype Error = NotABackup | Truncated | WrongOrDamaged | DataAfterEnd | CounterOverflow

  // ---- Big-endian 32-bit integers -------------------------------------

  function Pack32(n: nat): (b: Bytes)
    requires n < COUNTER_LIMIT
    ensures |b| == 4
  {
    [(n / 0x100_0000) as Byte, (n / 0x1_0000 % 0x100) as Byte, (n / 0x100 % 0x100) as Byte, (n % 0x100) as Byte]
  }

  function Unpack32(b: Bytes): (n: nat)
    requires |b| == 4
    ensures n < COUNTER_LIMIT
  {
    (b[0] as int) * 0x100_0000 + (b[1] as int) * 0x1_0000 + (b[2] as int) * 0x100 + b[3] as int
  }

  lemma UnpackPack(n: nat)
    requires n < COUNTER_LIMIT
    ensures Unpack32(Pack32(n)) == n
  {
    assert n / 0x1_0000 == n / 0x100_0000 * 0x100 + n / 0x1_0000 % 0x100;
    assert n / 0x100 == n / 0x1_0000 * 0x100 + n / 0x100 % 0x100;
  }

  lemma PackUnpack(b: Bytes)
    requires |b| == 4
    ensures Pack32(Unpack32(b)) == b
  {
    var n := Unpack32(b);
    assert n / 0x100 == (b[0] as int) * 0x1_0000 + (b[1] as int) * 0x100 + b[2] as int;
    assert n / 0x1_0000 == (b[0] as int) * 0x100 + b[1] as int;
    assert n / 0x100_0000 == b[0] as int;
  }

  // ---- Ideal primitives ------------------------------------------------

  /** Key derivation and the ciphertext function of the cipher. */
  datatype Crypto = Crypto(derive: (string, Bytes) -> Bytes, seal: (Bytes, Bytes, Bytes, Bytes) -> Bytes)

  /** No two passphrase and salt pairs share a key, and a ciphertext is one tag
      longer than its plaintext. */
  ghost predicate Ideal(c: Crypto) {
    && (forall p, s, p', s' :: c.derive(p, s) == c.derive(p', s') ==> p == p' && s == s')
    && (forall k, n, plain, ad :: |c.seal(k, n, plain, ad)| == |plain| + TAG_LENGTH)
  }

  datatype Issue = Issue(key: Bytes, nonce: Bytes, plain: Bytes, ad: Bytes, cipher: Bytes)

  /** What opening answers once `log` has been issued: the plaintext of an issued
      ciphertext, and nothing else. */
  function Open(log: seq<Issue>, key: Bytes, nonce: Bytes, cipher: Bytes, ad: Bytes): Option<Bytes> {
    if log == [] then None
    else
      var issue := log[0];
      if issue.key == key && issue.nonce == nonce && issue.cipher == cipher && issue.ad == ad
      then Some(issue.plain)
      else Open(log[1..], key, nonce, cipher, ad)
  }

  lemma {:induction false} OpenIsIssued(log: seq<Issue>, key: Bytes, nonce: Bytes, cipher: Bytes, ad: Bytes)
    ensures var r := Open(log, key, nonce, cipher, ad);
            && (r.Some? ==> Issue(key, nonce, r.value, ad, cipher) in log)
            && (r.None? ==> forall plain :: Issue(key, nonce, plain, ad, cipher) !in log)
  {
    if log != [] {
      OpenIsIssued(log[1..], key, nonce, cipher, ad);
      assert log == [log[0]] + log[1..];
    }
  }

  // ---- Streams -----------------------------------------------------------

  /** A binary file object: reading advances `pos`, writing appends. */
  class ByteStream {
    var data: Bytes
    var pos: nat

    constructor (contents: Bytes)
      ensures Valid() && data == contents && pos == 0
    {
      data, pos := contents, 0;
    }

    ghost predicate Valid()
      reads this
    {
      pos <= |data|
    }

    function Rest(): Bytes
      requires Valid()
      reads this
    {
      data[pos..]
    }

    method Read(n: nat) returns (b: Bytes)
      requires Valid()
      modifies this`pos
      ensures Valid()
      ensures b == Take(old(Rest()), n) && Rest() == Drop(old(Rest()), n)
    {
      var end := if pos + n <= |data| then pos + n else |data|;
      b := data[pos..end];
      pos := end;
    }

    method Write(b: Bytes)
      modifies this`data
      ensures data == old(data) + b
    {
      data := data + b;
    }
  }

  function Take(s: Bytes, n: nat): Bytes { if n <= |s| then s[..n] else s }

  function Drop(s: Bytes, n: nat): Bytes { if n <= |s| then s[n..] else [] }

  /** The cipher object: it remembers what it issued. */
  class Sealer {
    const crypto: Crypto
    var issued: seq<Issue>

    constructor (crypto: Crypto)
      ensures this.crypto == crypto && issued == []
    {
      this.crypto, issued := crypto, [];
    }

    method Encrypt(key: Bytes, nonce: Bytes, plain: Bytes, ad: Bytes) returns (cipher: Bytes)
      modifies this
      ensures cipher == crypto.seal(key, nonce, plain, ad)
      ensures issued == old(issued) + [Issue(key, nonce, plain, ad, cipher)]
    {
      cipher := crypto.seal(key, nonce, plain, ad);
      issued := issued + [Issue(key, nonce, plain, ad, cipher)];
    }
  }

  // ---- The file format -----------------------------------------------------

  /** The source cut into chunks; an empty source is one empty chunk. */
  function Chunks(source: Bytes): (chunks: seq<Bytes>)
    ensures |chunks| > 0
    ensures forall i :: 0 <= i < |chunks| ==> |chunks[i]| <= CHUNK_SIZE
  {
    if |source| <= CHUNK_SIZE then [source]
    else [source[..CHUNK_SIZE]] + Chunks(source[CHUNK_SIZE..])
  }

  lemma {:induction false} ConcatChunks(source: Bytes)
    ensures Flatten(Chunks(source)) == source
  {
    if |source| > CHUNK_SIZE {
      ConcatChunks(source[CHUNK_SIZE..]);
      FlattenCons(source[..CHUNK_SIZE], Chunks(source[CHUNK_SIZE..]));
    } else {
      FlattenCons(source, []);
      assert [source] + [] == [source];
    }
  }

  function Flag(last: bool): Bytes { if last then [1] else [0] }

  function Nonce(prefix: Bytes, counter: nat): Bytes
    requires counter < COUNTER_LIMIT
  {
    prefix + Pack32(counter)
  }

  function IssueFor(c: Crypto, key: Bytes, nonce: Bytes, chunk: Bytes, flag: Bytes): Issue {
    Issue(key, nonce, chunk, flag, c.seal(key, nonce, chunk, flag))
  }

  ghost function FrameFor(c: Crypto, key: Bytes, nonce: Bytes, chunk: Bytes, flag: Bytes): Bytes
    requires Ideal(c) && |chunk| <= CHUNK_SIZE
  {
    var cipher := c.seal(key, nonce, chunk, flag);
    flag + Pack32(|cipher|) + cipher
  }

  /** What the cipher issues for chunk `i` of a file. */
  function IssueAt(c: Crypto, key: Bytes, prefix: Bytes, chunks: seq<Bytes>, i: nat): Issue
    requires i < |chunks| && i < COUNTER_LIMIT
  {
    IssueFor(c, key, Nonce(prefix, i), chunks[i], Flag(i + 1 == |chunks|))
  }

  /** Chunks short enough for a frame's length field. */
  ghost predicate Framable(c: Crypto, chunks: seq<Bytes>) {
    && Ideal(c)
    && 0 < |chunks|
    && forall i :: 0 <= i < |chunks| ==> |chunks[i]| <= CHUNK_SIZE
  }

  ghost function Frame(c: Crypto, key: Bytes, prefix: Bytes, chunks: seq<Bytes>, i: nat): Bytes
    requires Framable(c, chunks) && i < |chunks| && i < COUNTER_LIMIT
  {
    FrameFor(c, key, Nonce(prefix, i), chunks[i], Flag(i + 1 == |chunks|))
  }

  /** There are `n` chunks, and counter values for them. */
  predicate Countable(chunks: seq<Bytes>, n: nat) { n <= |chunks| && n <= COUNTER_LIMIT }

  /** The frames of chunks `i`, `i + 1`, ... up to, not including, `n`. */
  ghost function Frames(c: Crypto, key: Bytes, prefix: Bytes, chunks: seq<Bytes>, i: nat, n: nat): Bytes
    requires Framable(c, chunks) && Countable(chunks, n) && i <= n
    decreases n - i
  {
    if i == n then [] else Frame(c, key, prefix, chunks, i) + Frames(c, key, prefix, chunks, i + 1, n)
  }

  /** What the cipher issues for the first `n` chunks. */
  ghost function Issues(c: Crypto, key: Bytes, prefix: Bytes, chunks: seq<Bytes>, n: nat): seq<Issue>
    requires Countable(chunks, n)
  {
    if n == 0 then [] else Issues(c, key, prefix, chunks, n - 1) + [IssueAt(c, key, prefix, chunks, n - 1)]
  }

  /** One run of the writer, and how many chunks it encrypted before it ended or was
      cut short. */
  datatype Backup = Backup(passphrase: string, salt: Bytes, prefix: Bytes, source: Bytes, issued: nat)

  ghost predicate Writable(c: Crypto, b: Backup) {
    && |b.salt| == SALT_LENGTH
    && |b.prefix| == NONCE_PREFIX_LENGTH
    && Framable(c, Chunks(b.source))
    && Countable(Chunks(b.source), b.issued)
  }

  predicate Finished(b: Backup) { b.issued == |Chunks(b.source)| }

  ghost function KeyOf(c: Crypto, b: Backup): Bytes { c.derive(b.passphrase, b.salt) }

  /** Header and frames of a run. */
  ghost function FileOf(c: Crypto, b: Backup): Bytes
    requires Writable(c, b)
  {
    MAGIC + b.salt + b.prefix + Frames(c, KeyOf(c, b), b.prefix, Chunks(b.source), 0, b.issued)
  }

  ghost function IssuesOf(c: Crypto, b: Backup): seq<Issue>
    requires Writable(c, b)
  {
    Issues(c, KeyOf(c, b), b.prefix, Chunks(b.source), b.issued)
  }

  // ---- Writing ---------------------------------------------------------------

  lemma {:induction false} FramesSnoc(c: Crypto, key: Bytes, prefix: Bytes, chunks: seq<Bytes>, i: nat, n: nat)
    requires Framable(c, chunks) && Countable(chunks, n + 1) && i <= n
    ensures Frames(c, key, prefix, chunks, i, n + 1) ==
            Frames(c, key, prefix, chunks, i, n) + Frame(c, key, prefix, chunks, n)
    decreases n - i
  {
    var last := Frame(c, key, prefix, chunks, n);
    if i == n {
      assert Frames(c, key, prefix, chunks, n + 1, n + 1) == [];
      assert last + [] == [] + last;
    } else {
      FramesSnoc(c, key, prefix, chunks, i + 1, n);
      var frame, frames := Frame(c, key, prefix, chunks, i), Frames(c, key, prefix, chunks, i + 1, n);
      Joined(frame, frames, last);
    }
  }

  /** `counter` chunks are written and issued. */
  ghost predicate Progress(c: Crypto, key: Bytes, prefix: Bytes, chunks: seq<Bytes>, counter: nat,
                           written: Bytes, issued: seq<Issue>)
  {
    && Framable(c, chunks) && Countable(chunks, counter)
    && written == Frames(c, key, prefix, chunks, 0, counter)
    && issued == Issues(c, key, prefix, chunks, counter)
  }

  /** With `rest` unread, the chunks from `counter` on are still to be written. */
  ghost predicate Unwritten(chunks: seq<Bytes>, counter: nat, rest: Bytes) {
    counter < |chunks| && chunks[counter..] == Chunks(rest)
  }

  lemma NextChunk(chunks: seq<Bytes>, counter: nat, rest: Bytes)
    requires Unwritten(chunks, counter, rest)
    ensures chunks[counter] == Take(rest, CHUNK_SIZE)
    ensures Take(Drop(rest, CHUNK_SIZE), CHUNK_SIZE) == [] <==> counter + 1 == |chunks|
    ensures counter + 1 < |chunks| ==> Unwritten(chunks, counter + 1, Drop(rest, CHUNK_SIZE))
    ensures counter + 1 < |chunks| ==> |Drop(rest, CHUNK_SIZE)| < |rest|
  {
    assert chunks[counter..][0] == chunks[counter];
    assert chunks[counter..][1..] == chunks[counter + 1..];
  }

  /** One pass of the writing loop: encrypt chunk `counter` and write its frame. */
  method WriteFrame(dst: ByteStream, sealer: Sealer, key: Bytes, prefix: Bytes, counter: nat, chunk: Bytes, flag: Bytes,
                    ghost chunks: seq<Bytes>, ghost written: Bytes, ghost issued: seq<Issue>)
    returns (ghost frame: Bytes, ghost issue: Issue)
    requires Ideal(sealer.crypto) && counter < |chunks| && counter < COUNTER_LIMIT
    requires chunk == chunks[counter] && |chunk| <= CHUNK_SIZE && flag == Flag(counter + 1 == |chunks|)
    requires Progress(sealer.crypto, key, prefix, chunks, counter, written, issued)
    modifies dst`data, sealer
    ensures dst.data == old(dst.data) + frame && sealer.issued == old(sealer.issued) + [issue]
    ensures Progress(sealer.crypto, key, prefix, chunks, counter + 1, written + frame, issued + [issue])
  {
    var nonce := prefix + Pack32(counter);
    var cipher := sealer.Encrypt(key, nonce, chunk, flag);
    dst.Write(flag + Pack32(|cipher|) + cipher);
    frame := FrameFor(sealer.crypto, key, nonce, chunk, flag);
    issue := IssueFor(sealer.crypto, key, nonce, chunk, flag);
    FramesSnoc(sealer.crypto, key, prefix, chunks, 0, counter);
  }

  /** The writing loop: every chunk, or as many as there are counter values. */
  method WriteFrames(src: ByteStream, dst: ByteStream, sealer: Sealer, key: Bytes, prefix: Bytes)
    returns (error: Option<Error>, ghost written: Bytes, ghost issued: seq<Issue>)
    requires src != dst && src.Valid() && Ideal(sealer.crypto)
    modifies src`pos, dst`data, sealer
    ensures dst.data == old(dst.data) + written && sealer.issued == old(sealer.issued) + issued
    ensures var chunks := Chunks(old(src.Rest()));
            && error == (if |chunks| <= COUNTER_LIMIT then None else Some(CounterOverflow))
            && Progress(sealer.crypto, key, prefix, chunks, if error.None? then |chunks| else COUNTER_LIMIT,
                        written, issued)
  {
    ghost var c, before, issuedBefore := sealer.crypto, dst.data, sealer.issued;
    ghost var rest := src.Rest();
    ghost var chunks := Chunks(rest);
    written, issued := [], [];
    var counter := 0;
    var chunk := src.Read(CHUNK_SIZE);
    while true
      invariant src.Valid()
      invariant Unwritten(chunks, counter, rest)
      invariant chunk == Take(rest, CHUNK_SIZE) && src.Rest() == Drop(rest, CHUNK_SIZE)
      invariant dst.data == before + written && sealer.issued == issuedBefore + issued
      invariant Progress(c, key, prefix, chunks, counter, written, issued)
      decreases |rest|
    {
      NextChunk(chunks, counter, rest);
      var following := src.Read(CHUNK_SIZE);
      var flag := if following != [] then [0] else [1];
      if counter >= COUNTER_LIMIT {
        return Some(CounterOverflow), written, issued;
      }
      ghost var frame, issue := WriteFrame(dst, sealer, key, prefix, counter, chunk, flag, chunks, written, issued);
      Joined(before, written, frame);
      Joined(issuedBefore, issued, [issue]);
      written, issued := written + frame, issued + [issue];
      if following == [] {
        return None, written, issued;
      }
      rest := Drop(rest, CHUNK_SIZE);
      chunk := following;
      counter := counter + 1;
    }
  }

  /** Between the two states what run `b` writes was appended to the stream, and
      exactly its ciphertexts were issued. */
  ghost predicate Wrote(c: Crypto, b: Backup, before: Bytes, after: Bytes,
                        issuedBefore: seq<Issue>, issuedAfter: seq<Issue>)
  {
    && Writable(c, b)
    && after == before + FileOf(c, b)
    && issuedAfter == issuedBefore + IssuesOf(c, b)
  }

  lemma Complete(c: Crypto, b: Backup, before: Bytes, issuedBefore: seq<Issue>, written: Bytes, issued: seq<Issue>)
    requires |b.salt| == SALT_LENGTH && |b.prefix| == NONCE_PREFIX_LENGTH
    requires Progress(c, KeyOf(c, b), b.prefix, Chunks(b.source), b.issued, written, issued)
    ensures Wrote(c, b, before, before + (MAGIC + b.salt + b.prefix) + written, issuedBefore, issuedBefore + issued)
  {
    var header := MAGIC + b.salt + b.prefix;
    Joined(before, header, written);
  }

  /** Writes the whole file, or stops when the 32-bit counter is used up: a source of
      more chunks than counter values is the one input that fails. */
  method EncryptFile(src: ByteStream, dst: ByteStream, sealer: Sealer,
                     passphrase: string, salt: Bytes, prefix: Bytes) returns (error: Option<Error>)
    requires src != dst && src.Valid() && Ideal(sealer.crypto)
    requires |salt| == SALT_LENGTH && |prefix| == NONCE_PREFIX_LENGTH
    modifies src`pos, dst`data, sealer
    ensures var chunks := Chunks(old(src.Rest()));
            && error == (if |chunks| <= COUNTER_LIMIT then None else Some(CounterOverflow))
            && Wrote(sealer.crypto,
                     Backup(passphrase, salt, prefix, old(src.Rest()), if error.None? then |chunks| else COUNTER_LIMIT),
                     old(dst.data), dst.data, old(sealer.issued), sealer.issued)
  {
    ghost var source, before, issuedBefore := src.Rest(), dst.data, sealer.issued;
    var key := sealer.crypto.derive(passphrase, salt);
    dst.Write(MAGIC + salt + prefix);
    ghost var written, issued;
    error, written, issued := WriteFrames(src, dst, sealer, key, prefix);
    ghost var count := if error.None? then |Chunks(source)| else COUNTER_LIMIT;
    Complete(sealer.crypto, Backup(passphrase, salt, prefix, source, count), before, issuedBefore, written, issued);
  }

  // ---- Reading ---------------------------------------------------------------

  /** What was written out before the end or the error, and the error. */
  datatype Decrypted = Decrypted(written: Bytes, error: Option<Error>)

  /** The frame at the start of `rest`, or none when the file ends inside it. */
  function ParseFrame(rest: Bytes): Option<(Bytes, Bytes)> {
    if |rest| < 5 then None
    else
      var length := Unpack32(rest[1..5]);
      if |rest| < 5 + length then None else Some((rest[..1], rest[5..5 + length]))
  }

  function DecryptFrames(log: seq<Issue>, key: Bytes, prefix: Bytes, counter: nat, rest: Bytes): Decrypted
    decreases |rest|
  {
    match ParseFrame(rest)
    case None => Decrypted([], Some(Truncated))
    case Some((flag, cipher)) =>
      if counter >= COUNTER_LIMIT then Decrypted([], Some(CounterOverflow))
      else
        match Open(log, key, Nonce(prefix, counter), cipher, flag)
        case None => Decrypted([], Some(WrongOrDamaged))
        case Some(plain) =>
          var after := rest[5 + |cipher|..];
          if flag == [1] then
            Decrypted(plain, if after != [] then Some(DataAfterEnd) else None)
          else
            var tail := DecryptFrames(log, key, prefix, counter + 1, after);
            Prepend(plain, tail)
  }

  function Prepend(written: Bytes, d: Decrypted): Decrypted {
    d.(written := written + d.written)
  }

  lemma PrependTwice(a: Bytes, b: Bytes, d: Decrypted)
    ensures Prepend(a, Prepend(b, d)) == Prepend(a + b, d)
  {
    Joined(a, b, d.written);
  }

  function Decrypt(c: Crypto, log: seq<Issue>, passphrase: string, file: Bytes): Decrypted {
    var header := Take(file, HEADER_LENGTH);
    if !(MAGIC <= header) || |header| < |MAGIC| + SALT_LENGTH then Decrypted([], Some(NotABackup))
    else
      var key := c.derive(passphrase, header[|MAGIC|..|MAGIC| + SALT_LENGTH]);
      DecryptFrames(log, key, header[|MAGIC| + SALT_LENGTH..], 0, Drop(file, HEADER_LENGTH))
  }

  method ReadFrame(src: ByteStream) returns (frame: Option<(Bytes, Bytes)>)
    requires src.Valid()
    modifies src`pos
    ensures src.Valid() && frame == ParseFrame(old(src.Rest()))
    ensures frame.Some? ==> src.Rest() == old(src.Rest())[5 + |frame.value.1|..]
  {
    ghost var rest := src.Rest();
    var start := src.Read(5);
    if |start| < 5 {
      return None;
    }
    var flag, length := start[..1], Unpack32(start[1..]);
    assert flag == rest[..1] && start[1..] == rest[1..5];
    var cipher := src.Read(length);
    if |cipher| != length {
      return None;
    }
    assert cipher == rest[5..5 + length] && src.Rest() == rest[5 + length..];
    frame := Some((flag, cipher));
  }

  /** One pass of the reading loop: read a frame, open it, write it out. */
  method ReadChunk(src: ByteStream, dst: ByteStream, sealer: Sealer, key: Bytes, prefix: Bytes, counter: nat)
    returns (done: bool, error: Option<Error>, ghost plain: Bytes)
    requires src != dst && src.Valid()
    modifies src`pos, dst`data
    ensures src.Valid() && dst.data == old(dst.data) + plain
    ensures var d := DecryptFrames(sealer.issued, key, prefix, counter, old(src.Rest()));
            if done then error == d.error && plain == d.written
            else d == Prepend(plain, DecryptFrames(sealer.issued, key, prefix, counter + 1, src.Rest()))
    ensures !done ==> |src.Rest()| < |old(src.Rest())|
  {
    done, error, plain := true, None, [];
    ghost var before := dst.data;
    var frame := ReadFrame(src);
    if frame.None? {
      error := Some(Truncated);
    } else if counter >= COUNTER_LIMIT {
      error := Some(CounterOverflow);
    } else {
      var (flag, cipher) := frame.value;
      var text := Open(sealer.issued, key, prefix + Pack32(counter), cipher, flag);
      if text.None? {
        error := Some(WrongOrDamaged);
      } else {
        plain := text.value;
        dst.Write(text.value);
        if flag == [1] {
          var extra := src.Read(1);
          error := if extra != [] then Some(DataAfterEnd) else None;
        } else {
          done := false;
        }
      }
    }
    assert before + [] == before;
  }

  /** `written` is written out, and what reading on gives follows it in the answer `d`. */
  ghost predicate ReadSoFar(log: seq<Issue>, key: Bytes, prefix: Bytes, counter: nat, rest: Bytes, d: Decrypted,
                            written: Bytes)
  {
    d == Prepend(written, DecryptFrames(log, key, prefix, counter, rest))
  }

  lemma ReadFurther(log: seq<Issue>, key: Bytes, prefix: Bytes, counter: nat, rest: Bytes, d: Decrypted,
                    written: Bytes, done: bool, error: Option<Error>, plain: Bytes, after: Bytes)
    requires ReadSoFar(log, key, prefix, counter, rest, d, written)
    requires var left := DecryptFrames(log, key, prefix, counter, rest);
             if done then error == left.error && plain == left.written
             else left == Prepend(plain, DecryptFrames(log, key, prefix, counter + 1, after))
    ensures if done then d == Decrypted(written + plain, error)
            else ReadSoFar(log, key, prefix, counter + 1, after, d, written + plain)
  {
    PrependTwice(written, plain, DecryptFrames(log, key, prefix, counter + 1, after));
  }

  /** The reading loop. */
  method ReadFrames(src: ByteStream, dst: ByteStream, sealer: Sealer, key: Bytes, prefix: Bytes)
    returns (error: Option<Error>)
    requires src != dst && src.Valid()
    modifies src`pos, dst`data
    ensures var d := DecryptFrames(sealer.issued, key, prefix, 0, old(src.Rest()));
            error == d.error && dst.data == old(dst.data) + d.written
  {
    ghost var log, d := sealer.issued, DecryptFrames(sealer.issued, key, prefix, 0, src.Rest());
    ghost var before, written := dst.data, [];
    error := None;
    var counter, done := 0, false;
    while !done
      invariant src.Valid() && dst.data == before + written
      invariant if done then d == Decrypted(written, error)
                else ReadSoFar(log, key, prefix, counter, src.Rest(), d, written)
      decreases !done, |src.Rest()|
    {
      ghost var rest, plain := src.Rest(), [];
      done, error, plain := ReadChunk(src, dst, sealer, key, prefix, counter);
      ReadFurther(log, key, prefix, counter, rest, d, written, done, error, plain, src.Rest());
      Joined(before, written, plain);
      written := written + plain;
      counter := counter + 1;
    }
  }

  /** Reads a file with whatever the cipher has issued so far. */
  method DecryptFile(src: ByteStream, dst: ByteStream, sealer: Sealer, passphrase: string)
    returns (error: Option<Error>)
    requires src != dst && src.Valid()
    modifies src`pos, dst`data
    ensures var d := Decrypt(sealer.crypto, sealer.issued, passphrase, old(src.Rest()));
            error == d.error && dst.data == old(dst.data) + d.written
  {
    var header := src.Read(HEADER_LENGTH);
    if !(MAGIC <= header) || |header| < |MAGIC| + SALT_LENGTH {
      return Some(NotABackup);
    }
    var salt, prefix := header[|MAGIC|..|MAGIC| + SALT_LENGTH], header[|MAGIC| + SALT_LENGTH..];
    var key := sealer.crypto.derive(passphrase, salt);
    error := ReadFrames(src, dst, sealer, key, prefix);
  }
}
