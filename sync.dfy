/**
 * The sync receiver (src/sync.rs): one action byte per connection, then a
 * frame of at most 8192 bytes holding a 12-byte AEAD nonce and the
 * ciphertext; the decrypted plaintext is checked against a table of
 * already-seen plaintext digests (the replay guard), decoded into a file
 * name and content, and written under `./md/`.
 *
 * The AEAD cipher (AES-256-GCM) and the blake3 hash are foreign code: they
 * are parameters of the receiver, and `Sound` states the one property of
 * the cipher the proofs rely on.
 */
module Sync {
  import opened Common
  import Utf8

  /** Size of the receive buffer, and the limit of `take` on the socket. */
  const BUFFER_SIZE: nat := 8192
  /** Length of an AES-GCM nonce. */
  const NONCE_LEN: nat := 12
  /** Length of an AES-GCM authentication tag. */
  const TAG_LEN: nat := 16

  // ---------------------------------------------------------------------
  // Actions
  // ---------------------------------------------------------------------

  datatype SyncAction = Upload
  datatype BadSyncAction = BadSyncAction

  /** `SyncAction::try_from`: byte 0 is an upload, every other byte is refused. */
  function ActionFromByte(value: byte): (r: Result<SyncAction, BadSyncAction>)
    ensures r.Ok? <==> value == 0
  {
    if value == 0 then Ok(Upload) else Err(BadSyncAction)
  }

  /** The decimal rendering `format!` gives an integer. */
  function Decimal(n: nat): (s: string)
    ensures |s| > 0 && forall i :: 0 <= i < |s| ==> '0' <= s[i] <= '9'
    ensures |s| == 1 || s[0] != '0'
    ensures n > 0 ==> s[0] != '0'
  {
    if n < 10 then [('0' as int + n) as char]
    else Decimal(n / 10) + [('0' as int + n % 10) as char]
  }

  /** The number a string of decimal digits denotes. */
  function DecimalValue(s: string): nat
    requires forall i :: 0 <= i < |s| ==> '0' <= s[i] <= '9'
  {
    if s == [] then 0
    else DecimalValue(s[..|s| - 1]) * 10 + (s[|s| - 1] as int - '0' as int)
  }

  /** The rendering of a number denotes that number. */
  lemma {:induction false} DecimalRoundTrip(n: nat)
    ensures DecimalValue(Decimal(n)) == n
  {
    if n >= 10 {
      var s := Decimal(n);
      assert s[..|s| - 1] == Decimal(n / 10);
      DecimalRoundTrip(n / 10);
    }
  }

  /** The diagnostic written back for an unknown action byte. */
  function BadActionReply(value: byte): string
  {
    "Bad sync action " + Decimal(value as nat)
  }

  // ---------------------------------------------------------------------
  // Foreign cryptography
  // ---------------------------------------------------------------------

  type Nonce = s: seq<byte> | |s| == NONCE_LEN witness [0, 0, 0, 0, 0, 0, 0, 0, 0, 0, 0, 0]

  /** A blake3 digest of a plaintext. */
  type Digest = seq<byte>

  /** The process-wide AEAD instance: seal and open under the shared key. */
  datatype Cipher = Cipher(
    seal: (Nonce, seq<byte>) -> seq<byte>,
    open: (Nonce, seq<byte>) -> Option<seq<byte>>)

  /**
   * What the proofs assume of the cipher: opening a sealed message under
   * the same nonce gives the plaintext back, and sealing adds a tag.
   */
  ghost predicate Sound(c: Cipher)
  {
    forall n: Nonce, p: seq<byte> {:trigger c.seal(n, p)} ::
      c.open(n, c.seal(n, p)) == Some(p) && |c.seal(n, p)| == |p| + TAG_LEN
  }

  // ---------------------------------------------------------------------
  // Replay guard
  // ---------------------------------------------------------------------

  /** `NonceInfo`: the nonce a plaintext digest was last accepted with, and when. */
  datatype NonceInfo = NonceInfo(nonce: Nonce, timeSeen: int)

  /** The `expired_nonces` table, keyed by plaintext digest. */
  type NonceTable = map<Digest, NonceInfo>

  /** The table already holds this digest with this very nonce. */
  predicate IsReplay(table: NonceTable, digest: Digest, nonce: Nonce)
  {
    digest in table && table[digest].nonce == nonce
  }

  /** The table after accepting `digest` under `nonce` at time `now`. */
  function Record(table: NonceTable, digest: Digest, nonce: Nonce, now: int): (t: NonceTable)
    ensures t.Keys == table.Keys + {digest}
    ensures t[digest] == NonceInfo(nonce, now)
    ensures forall d :: d in table && d != digest ==> t[d] == table[d]
  {
    table[digest := NonceInfo(nonce, now)]
  }

  /** After a digest is recorded with a nonce, the same pair is a replay. */
  lemma RecordedIsReplay(table: NonceTable, digest: Digest, nonce: Nonce, now: int)
    ensures IsReplay(Record(table, digest, nonce, now), digest, nonce)
  {
  }

  /**
   * The guard compares nonces, so the same plaintext sealed under another
   * nonce is not a replay: recording it overwrites the old entry.
   */
  lemma OtherNonceNotReplay(table: NonceTable, digest: Digest, n1: Nonce, n2: Nonce, now: int)
    requires n1 != n2
    ensures !IsReplay(Record(table, digest, n1, now), digest, n2)
  {
  }

  // ---------------------------------------------------------------------
  // Plaintext decoding
  // ---------------------------------------------------------------------

  /** The content filter `.filter(|b| **b != 0)`: every zero byte dropped. */
  function RemoveZeros(s: seq<byte>): (r: seq<byte>)
    ensures 0 !in r
    ensures |r| <= |s|
  {
    if s == [] then []
    else (if s[0] == 0 then [] else [s[0]]) + RemoveZeros(s[1..])
  }

  /** The filter distributes over concatenation, so it keeps the order of the bytes it keeps. */
  lemma {:induction false} RemoveZerosConcat(a: seq<byte>, b: seq<byte>)
    ensures RemoveZeros(a + b) == RemoveZeros(a) + RemoveZeros(b)
  {
    if a == [] {
      assert a + b == b;
    } else {
      var head: seq<byte> := if a[0] == 0 then [] else [a[0]];
      assert (a + b)[0] == a[0] && (a + b)[1..] == a[1..] + b;
      assert RemoveZeros(a + b) == head + RemoveZeros(a[1..] + b);
      RemoveZerosConcat(a[1..], b);
      assert RemoveZeros(a) == head + RemoveZeros(a[1..]);
    }
  }

  /** The filter leaves a sequence unchanged exactly when it holds no zero byte. */
  lemma {:induction false} RemoveZerosIdentity(s: seq<byte>)
    ensures RemoveZeros(s) == s <==> 0 !in s
  {
    if s != [] {
      RemoveZerosIdentity(s[1..]);
      if s[0] == 0 {
        assert |RemoveZeros(s)| < |s| by {
          assert |RemoveZeros(s[1..])| <= |s[1..]|;
        }
      } else {
        assert s == [s[0]] + s[1..];
      }
    }
  }

  /** Zero padding disappears entirely. */
  lemma {:induction false} RemoveZerosOfZeros(n: nat)
    ensures RemoveZeros(Zeros(n)) == []
  {
    if n > 0 {
      assert Zeros(n)[1..] == Zeros(n - 1);
      RemoveZerosOfZeros(n - 1);
    }
  }

  /** Every non-zero byte occurs as often in the result as in the input. */
  lemma {:induction false} RemoveZerosKeepsCounts(s: seq<byte>, b: byte)
    requires b != 0
    ensures multiset(RemoveZeros(s))[b] == multiset(s)[b]
  {
    if s != [] {
      RemoveZerosKeepsCounts(s[1..], b);
      assert s == [s[0]] + s[1..];
    }
  }

  /** A decoded plaintext: the file name (UTF-8 bytes) and the file content. */
  datatype Decoded = Decoded(name: seq<byte>, content: seq<byte>)

  /**
   * Everything that ends an upload early: a failed read, the panics of the
   * slicing code on frames too short, a failed AEAD open, a replay, and a
   * name that is not UTF-8.
   */
  datatype UploadError =
    | ReadFailed
    | PanicShortFrame
    | DecryptFailed
    | Replayed
    | PanicEmptyPlaintext
    | PanicNameOutOfRange
    | InvalidName

  /**
   * The receiver's decoding of a plaintext: byte 0 is the name length,
   * the next `len` bytes are the name, and every byte after the name, with
   * its zero bytes dropped, is the content. Indexing an empty plaintext or
   * a name running past its end panics.
   */
  function Decode(dec: seq<byte>): (r: Result<Decoded, UploadError>)
    ensures r.Ok? <==> |dec| > 0 && dec[0] as int + 1 <= |dec| && Utf8.Valid(dec[1..dec[0] as int + 1])
    ensures r.Ok? ==> r.value.name == dec[1..dec[0] as int + 1] && |r.value.name| == dec[0] as int
    ensures r.Ok? ==> Utf8.Valid(r.value.name) && 0 !in r.value.content
    ensures r == Err(PanicEmptyPlaintext) <==> |dec| == 0
    ensures r == Err(PanicNameOutOfRange) <==> |dec| > 0 && |dec| < dec[0] as int + 1
    ensures r == Err(InvalidName) <==>
      |dec| > 0 && dec[0] as int + 1 <= |dec| && !Utf8.Valid(dec[1..dec[0] as int + 1])
    ensures r.Err? ==> r.error in {PanicEmptyPlaintext, PanicNameOutOfRange, InvalidName}
  {
    if |dec| == 0 then Err(PanicEmptyPlaintext)
    else
      var len := dec[0] as int;
      if |dec| < len + 1 then Err(PanicNameOutOfRange)
      else if !Utf8.Valid(dec[1..len + 1]) then Err(InvalidName)
      else Ok(Decoded(dec[1..len + 1], RemoveZeros(dec[len + 1..])))
  }

  /** A plaintext with an in-range UTF-8 name decodes to that name and the filtered rest. */
  lemma DecodeAccepts(dec: seq<byte>)
    requires |dec| > 0 && dec[0] as int + 1 <= |dec| && Utf8.Valid(dec[1..dec[0] as int + 1])
    ensures Decode(dec) == Ok(Decoded(dec[1..dec[0] as int + 1], RemoveZeros(dec[dec[0] as int + 1..])))
  {
  }

  /** A one-byte name that is a bare continuation byte is refused, whatever follows it. */
  lemma ContinuationNameRefused(b: byte, rest: seq<byte>)
    requires Utf8.InRange(b, 0x80, 0xBF)
    ensures Decode([1, b] + rest) == Err(InvalidName)
  {
    var dec: seq<byte> := [1, b] + rest;
    assert dec[1..2] == [b];
    Utf8.ContinuationAloneInvalid(b);
  }

  /** The bytes of `"./md/"`, the directory uploads are written to. */
  const MD_DIR: seq<byte> := [0x2E, 0x2F, 0x6D, 0x64, 0x2F]

  /** `format!("./md/{file_name}")`: the name is joined verbatim, without sanitising. */
  function Destination(name: seq<byte>): (path: seq<byte>)
    ensures |path| == |MD_DIR| + |name|
    ensures path[..|MD_DIR|] == MD_DIR && path[|MD_DIR|..] == name
  {
    MD_DIR + name
  }

  // ---------------------------------------------------------------------
  // The upload pipeline as a function of what the peer sent
  // ---------------------------------------------------------------------

  /** A file to create or truncate, and the bytes to write into it. */
  datatype FileWrite = FileWrite(path: seq<byte>, content: seq<byte>)

  /** The replay table after an upload, and the upload's outcome. */
  datatype Step = Step(table: NonceTable, result: Result<FileWrite, UploadError>)

  /** What the read loop leaves in `buffer[..n]`: the first 8192 bytes the peer sent. */
  function Received(sent: seq<byte>): (r: seq<byte>)
    ensures |r| <= BUFFER_SIZE && r <= sent
    ensures |sent| <= BUFFER_SIZE ==> r == sent
    ensures |sent| > BUFFER_SIZE ==> r == sent[..BUFFER_SIZE]
  {
    if |sent| <= BUFFER_SIZE then sent else sent[..BUFFER_SIZE]
  }

  /** Decrypt, consult and update the replay table, decode: the steps after reading. */
  function Process(c: Cipher, hash: seq<byte> -> Digest, table: NonceTable,
                   buffer: seq<byte>, now: int): Step
  {
    if |buffer| < NONCE_LEN then Step(table, Err(PanicShortFrame))
    else
      var nonce: Nonce := buffer[..NONCE_LEN];
      match c.open(nonce, buffer[NONCE_LEN..])
      case None => Step(table, Err(DecryptFailed))
      case Some(dec) =>
        var digest := hash(dec);
        if IsReplay(table, digest, nonce) then Step(table, Err(Replayed))
        else
          var table' := Record(table, digest, nonce, now);
          match Decode(dec)
          case Err(e) => Step(table', Err(e))
          case Ok(d) => Step(table', Ok(FileWrite(Destination(d.name), d.content)))
  }

  /**
   * `handle_upload` for a peer that sent `sent` after the action byte and
   * then closed its side (or, when `broken`, made the next read fail).
   */
  function Receive(c: Cipher, hash: seq<byte> -> Digest, table: NonceTable,
                   sent: seq<byte>, broken: bool, now: int): Step
  {
    if broken && |sent| < BUFFER_SIZE then Step(table, Err(ReadFailed))
    else Process(c, hash, table, Received(sent), now)
  }

  /** The content directory after an upload: only an accepted upload writes. */
  function Persist(files: map<seq<byte>, seq<byte>>, result: Result<FileWrite, UploadError>)
    : (r: map<seq<byte>, seq<byte>>)
    ensures result.Err? ==> r == files
    ensures result.Ok? ==> r.Keys == files.Keys + {result.value.path}
    ensures result.Ok? ==> r[result.value.path] == result.value.content
    ensures result.Ok? ==> forall p :: p in files && p != result.value.path ==> r[p] == files[p]
  {
    match result
    case Err(_) => files
    case Ok(w) => files[w.path := w.content]
  }

  // ---------------------------------------------------------------------
  // Properties of the pipeline
  // ---------------------------------------------------------------------

  /**
   * A replayed frame is rejected, leaves the table as it was and writes
   * nothing; every other outcome leaves the table either unchanged or
   * updated at the plaintext's digest only.
   */
  lemma ReplayLeavesStateAlone(c: Cipher, hash: seq<byte> -> Digest, table: NonceTable,
                               sent: seq<byte>, broken: bool, now: int)
    ensures var s := Receive(c, hash, table, sent, broken, now);
      s.result == Err(Replayed) ==> s.table == table
    ensures var s := Receive(c, hash, table, sent, broken, now);
      s.result.Err? && s.result.error in {ReadFailed, PanicShortFrame, DecryptFailed} ==> s.table == table
  {
  }

  /**
   * When the frame is read whole and authenticates, the plaintext's digest
   * maps afterwards to the frame's nonce, whatever the outcome, and no other
   * entry of the table changes.
   */
  lemma AuthenticFrameRecorded(c: Cipher, hash: seq<byte> -> Digest, table: NonceTable,
                               sent: seq<byte>, now: int, dec: seq<byte>)
    requires NONCE_LEN <= |sent| <= BUFFER_SIZE
    requires c.open(sent[..NONCE_LEN], sent[NONCE_LEN..]) == Some(dec)
    ensures var s := Receive(c, hash, table, sent, false, now);
      && hash(dec) in s.table && s.table[hash(dec)].nonce == sent[..NONCE_LEN]
      && s.table.Keys == table.Keys + {hash(dec)}
      && (forall d :: d in table && d != hash(dec) ==> s.table[d] == table[d])
  {
  }

  /**
   * The replay defence: a frame delivered a second time, after the first
   * delivery got past decryption, is rejected and changes nothing.
   */
  lemma {:induction false} SecondDeliveryRejected(c: Cipher, hash: seq<byte> -> Digest,
                                                  table: NonceTable, sent: seq<byte>,
                                                  now1: int, now2: int)
    requires NONCE_LEN <= |sent| <= BUFFER_SIZE
    requires c.open(sent[..NONCE_LEN], sent[NONCE_LEN..]).Some?
    ensures var first := Receive(c, hash, table, sent, false, now1);
      var second := Receive(c, hash, first.table, sent, false, now2);
      second == Step(first.table, Err(Replayed))
  {
    var dec := c.open(sent[..NONCE_LEN], sent[NONCE_LEN..]).value;
    AuthenticFrameRecorded(c, hash, table, sent, now1, dec);
  }

  /** The table never loses an entry: the guard has no eviction. */
  lemma TableOnlyGrows(c: Cipher, hash: seq<byte> -> Digest, table: NonceTable,
                       sent: seq<byte>, broken: bool, now: int)
    ensures table.Keys <= Receive(c, hash, table, sent, broken, now).table.Keys
  {
  }

  // ---------------------------------------------------------------------
  // The connection and the receiver's state
  // ---------------------------------------------------------------------

  /**
   * The receiving end of one TCP connection: the bytes the peer sent and
   * that have not been read yet, and whether the stream ends in an error
   * rather than end-of-file once they are read.
   */
  class Connection {
    var pending: seq<byte>
    var broken: bool

    constructor (sent: seq<byte>, broken: bool)
      ensures pending == sent && this.broken == broken
    {
      pending := sent;
      this.broken := broken;
    }

    /** `read_u8`: one byte, or nothing when the stream has ended. */
    method ReadByte() returns (b: Option<byte>)
      modifies this`pending
      ensures old(pending) == [] ==> b == None && pending == []
      ensures old(pending) != [] ==> b == Some(old(pending)[0]) && pending == old(pending)[1..]
    {
      if pending == [] {
        b := None;
      } else {
        b := Some(pending[0]);
        pending := pending[1..];
      }
    }

    /**
     * `read(&mut buf[from..])`: some non-empty prefix of the pending bytes
     * that fits, chosen by the network; 0 when the space is empty or the
     * peer closed; an error when the stream broke.
     */
    method Read(buf: array<byte>, from: nat) returns (r: Result<nat, ()>)
      requires from <= buf.Length
      modifies this`pending, buf
      ensures r.Err? <==> from < buf.Length && old(pending) == [] && broken
      ensures r.Err? ==> pending == old(pending) && buf[..] == old(buf[..])
      ensures r.Ok? ==> r.value <= buf.Length - from && r.value <= |old(pending)|
      ensures r.Ok? ==> (r.value == 0 <==> from == buf.Length || old(pending) == [])
      ensures r.Ok? ==> pending == old(pending)[r.value..]
      ensures r.Ok? ==> buf[..from] == old(buf[..from])
      ensures r.Ok? ==> buf[from..from + r.value] == old(pending)[..r.value]
      ensures r.Ok? ==> buf[from + r.value..] == old(buf[from + r.value..])
    {
      if from == buf.Length || pending == [] {
        if from < buf.Length && broken {
          return Err(());
        }
        return Ok(0);
      }
      var k :| 1 <= k <= buf.Length - from && k <= |pending|;
      forall i | from <= i < from + k {
        buf[i] := pending[i - from];
      }
      pending := pending[k..];
      r := Ok(k);
    }
  }

  /**
   * The receiving service: the cipher and hash it was built with, the
   * `expired_nonces` table shared by all connections, and the files of the
   * content directory, by path.
   */
  class Receiver {
    const cipher: Cipher
    const hash: seq<byte> -> Digest
    var expiredNonces: NonceTable
    var files: map<seq<byte>, seq<byte>>

    constructor (cipher: Cipher, hash: seq<byte> -> Digest, files: map<seq<byte>, seq<byte>>)
      ensures this.cipher == cipher && this.hash == hash
      ensures expiredNonces == map[] && this.files == files
    {
      this.cipher := cipher;
      this.hash := hash;
      expiredNonces := map[];
      this.files := files;
    }

    /** The critical section under the table's lock: check, then insert. */
    method CheckAndRecord(digest: Digest, nonce: Nonce, now: int) returns (accepted: bool)
      modifies this`expiredNonces
      ensures accepted == !IsReplay(old(expiredNonces), digest, nonce)
      ensures expiredNonces ==
        (if accepted then Record(old(expiredNonces), digest, nonce, now) else old(expiredNonces))
    {
      if digest in expiredNonces {
        var info := expiredNonces[digest];
        if info.nonce == nonce {
          return false;
        }
      }
      expiredNonces := expiredNonces[digest := NonceInfo(nonce, now)];
      accepted := true;
    }

    /** `handle_upload`, after the action byte has been read. */
    method HandleUpload(conn: Connection, now: int) returns (r: Result<(), UploadError>)
      modifies this`expiredNonces, this`files, conn`pending
      ensures var s := Receive(cipher, hash, old(expiredNonces), old(conn.pending), conn.broken, now);
        && expiredNonces == s.table
        && files == Persist(old(files), s.result)
        && r == (if s.result.Ok? then Ok(()) else Err(s.result.error))
    {
      ghost var sent := conn.pending;
      var buffer := new byte[BUFFER_SIZE];
      var n := 0;
      while true
        invariant 0 <= n <= buffer.Length == BUFFER_SIZE
        invariant n <= |sent| && buffer[..n] == sent[..n] && conn.pending == sent[n..]
        invariant expiredNonces == old(expiredNonces) && files == old(files)
        decreases BUFFER_SIZE - n
      {
        var res := conn.Read(buffer, n);
        if res.Err? {
          return Err(ReadFailed);
        }
        if res.value == 0 {
          break;
        }
        assert buffer[..n + res.value] == buffer[..n] + buffer[n..n + res.value];
        assert sent[..n + res.value] == sent[..n] + sent[n..][..res.value];
        n := n + res.value;
      }
      ghost var got := Received(sent);
      assert buffer[..n] == got;

      if n < NONCE_LEN {
        return Err(PanicShortFrame);
      }
      var nonce: Nonce := buffer[..NONCE_LEN];
      var sealedOpen := cipher.open(nonce, buffer[NONCE_LEN..n]);
      assert nonce == got[..NONCE_LEN] && buffer[NONCE_LEN..n] == got[NONCE_LEN..];
      if sealedOpen.None? {
        return Err(DecryptFailed);
      }
      var dec := sealedOpen.value;
      var accepted := CheckAndRecord(hash(dec), nonce, now);
      if !accepted {
        return Err(Replayed);
      }
      var decoded := Decode(dec);
      if decoded.Err? {
        return Err(decoded.error);
      }
      var path := Destination(decoded.value.name);
      files := files[path := decoded.value.content];
      r := Ok(());
    }

    /**
     * One accepted connection: read the action byte; an upload is handled,
     * an unknown action gets a diagnostic back. A stream that ends before
     * the action byte is dropped silently.
     */
    method ServeConnection(conn: Connection, now: int) returns (reply: string)
      modifies this`expiredNonces, this`files, conn`pending
      ensures old(conn.pending) == [] || old(conn.pending)[0] != 0 ==>
        expiredNonces == old(expiredNonces) && files == old(files)
      ensures old(conn.pending) == [] ==> reply == []
      ensures old(conn.pending) != [] && old(conn.pending)[0] != 0 ==>
        reply == BadActionReply(old(conn.pending)[0])
      ensures old(conn.pending) != [] && old(conn.pending)[0] == 0 ==>
        var s := Receive(cipher, hash, old(expiredNonces), old(conn.pending)[1..], conn.broken, now);
        reply == [] && expiredNonces == s.table && files == Persist(old(files), s.result)
    {
      reply := [];
      var actionByte := conn.ReadByte();
      if actionByte.None? {
        return;
      }
      match ActionFromByte(actionByte.value)
      case Ok(Upload) =>
        var _ := HandleUpload(conn, now);
      case Err(_) =>
        reply := BadActionReply(actionByte.value);
    }
  }
}
