/**
 * The sync sender (src/sync_md.rs): the command line, and the push of one
 * file — the plaintext `[name_len] ++ name padded to 256 bytes ++ content`,
 * sealed under a fresh nonce and sent as `[0] ++ nonce ++ ciphertext` three
 * times, so that the receiver's replay guard sees the repeats.
 *
 * The lemmas at the end connect this module to the receiver in `Sync`:
 * what the sender builds, the receiver decodes back, once.
 */
module SyncMd {
  import opened Common
  import Utf8
  import Sync

  /** Width of the zero-padded file name field. */
  const NAME_FIELD_LEN: nat := 256
  /** How often each frame is transmitted. */
  const SENDS: nat := 3
  /** The largest frame the sender lets through, counted as the source counts it. */
  const MAX_FRAME: nat := 8192

  // ---------------------------------------------------------------------
  // Command line
  // ---------------------------------------------------------------------

  /** An IP address as `IpAddr` parses it (the parser is foreign). */
  datatype IpAddr = IpAddr(octets: seq<byte>)

  datatype Command = GenKey | Push(server: IpAddr)

  datatype CliError = PanicNoProgramName | Usage(text: string) | BadAddress

  const USAGE: string := "Usage: ./sync_md <server_ip|gen_key>"

  /**
   * `main`'s argument handling over the whole argument vector: the first
   * entry is the program name, the second decides; anything after it is
   * ignored.
   */
  function Dispatch(argv: seq<string>, parseIp: string -> Option<IpAddr>): (r: Result<Command, CliError>)
    ensures |argv| == 0 ==> r == Err(PanicNoProgramName)
    ensures |argv| == 1 ==> r == Err(Usage(USAGE))
    ensures |argv| >= 2 ==> (r == Ok(GenKey) <==> argv[1] == "gen_key")
    ensures |argv| >= 2 && argv[1] != "gen_key" ==>
      (r.Ok? <==> parseIp(argv[1]).Some?) && (r.Ok? ==> r == Ok(Push(parseIp(argv[1]).value)))
    ensures r.Err? ==> |argv| < 2 || (argv[1] != "gen_key" && parseIp(argv[1]).None?)
  {
    if |argv| == 0 then Err(PanicNoProgramName)
    else if |argv| == 1 then Err(Usage(USAGE))
    else if argv[1] == "gen_key" then Ok(GenKey)
    else match parseIp(argv[1])
      case None => Err(BadAddress)
      case Some(ip) => Ok(Push(ip))
  }

  // ---------------------------------------------------------------------
  // The plaintext
  // ---------------------------------------------------------------------

  /** The name copied into a zeroed 256-byte array. */
  function NameField(name: seq<byte>): (f: seq<byte>)
    requires |name| <= NAME_FIELD_LEN
    ensures |f| == NAME_FIELD_LEN
    ensures f[..|name|] == name && forall i :: |name| <= i < NAME_FIELD_LEN ==> f[i] == 0
  {
    name + Zeros(NAME_FIELD_LEN - |name|)
  }

  /** The message `send_file` seals: name length, name field, content. */
  function Plaintext(name: seq<byte>, content: seq<byte>): (msg: seq<byte>)
    requires |name| < NAME_FIELD_LEN
    ensures |msg| == 1 + NAME_FIELD_LEN + |content|
    ensures msg[0] as int == |name|
    ensures msg[1..1 + NAME_FIELD_LEN] == NameField(name)
    ensures msg[1 + NAME_FIELD_LEN..] == content
  {
    [|name| as byte] + NameField(name) + content
  }

  datatype SendError =
    | NameNotUtf8
    | PanicNameTooLong
    | ContentNotUtf8
    | NameLengthOverflow
    | ConnectFailed
    | PanicFileTooBig

  /**
   * The checks `send_file` makes before sealing, in its order: the name
   * must be UTF-8, must fit the 256-byte field (the copy panics otherwise),
   * the file must read as UTF-8 text, and the name length must fit a byte.
   */
  function Prepare(name: seq<byte>, content: seq<byte>): (r: Result<seq<byte>, SendError>)
    ensures r.Ok? <==> Utf8.Valid(name) && |name| < NAME_FIELD_LEN && Utf8.Valid(content)
    ensures r.Ok? ==> |name| < NAME_FIELD_LEN && r.value == Plaintext(name, content)
    ensures Utf8.Valid(name) && |name| == NAME_FIELD_LEN && Utf8.Valid(content) ==>
      r == Err(NameLengthOverflow)
  {
    if !Utf8.Valid(name) then Err(NameNotUtf8)
    else if |name| > NAME_FIELD_LEN then Err(PanicNameTooLong)
    else if !Utf8.Valid(content) then Err(ContentNotUtf8)
    else if |name| > 255 then Err(NameLengthOverflow)
    else Ok(Plaintext(name, content))
  }

  /** One transmission: the upload action byte, the nonce, the ciphertext. */
  function Frame(nonce: Sync.Nonce, enc: seq<byte>): (f: seq<byte>)
    ensures |f| == 1 + Sync.NONCE_LEN + |enc|
    ensures f[0] == 0 && f[1..1 + Sync.NONCE_LEN] == nonce && f[1 + Sync.NONCE_LEN..] == enc
  {
    [0] + nonce + enc
  }

  /** The size check `1 + 1 + nonce + ciphertext <= 8192`. */
  predicate FitsLimit(enc: seq<byte>)
  {
    1 + 1 + Sync.NONCE_LEN + |enc| <= MAX_FRAME
  }

  /** How many connections succeed before the one that fails, if any does. */
  function Attempts(failedConnect: Option<nat>): (k: nat)
    ensures k <= SENDS
  {
    if failedConnect.Some? && failedConnect.value < SENDS then failedConnect.value else SENDS
  }

  // ---------------------------------------------------------------------
  // send_file
  // ---------------------------------------------------------------------

  /**
   * `send_file` for a directory entry called `name` holding `content`,
   * sealed under `nonce`. `failedConnect` is the index of the first
   * connection the network refuses, if any. `sent` lists the frames
   * written, in order.
   */
  method SendFile(name: seq<byte>, content: seq<byte>, nonce: Sync.Nonce, cipher: Sync.Cipher,
                  failedConnect: Option<nat>)
    returns (sent: seq<seq<byte>>, r: Result<(), SendError>)
    ensures Prepare(name, content).Err? ==> sent == [] && r == Err(Prepare(name, content).error)
    ensures Prepare(name, content).Ok? ==>
      var enc := cipher.seal(nonce, Prepare(name, content).value);
      var k := Attempts(failedConnect);
      if k > 0 && !FitsLimit(enc) then sent == [] && r == Err(PanicFileTooBig)
      else sent == seq(k, _ => Frame(nonce, enc)) && r == (if k < SENDS then Err(ConnectFailed) else Ok(()))
  {
    sent := [];
    if !Utf8.Valid(name) {
      return sent, Err(NameNotUtf8);
    }
    var field := new byte[NAME_FIELD_LEN](_ => 0);
    if |name| > field.Length {
      return sent, Err(PanicNameTooLong);
    }
    forall i | 0 <= i < |name| {
      field[i] := name[i];
    }
    if !Utf8.Valid(content) {
      return sent, Err(ContentNotUtf8);
    }
    if |name| > 255 {
      return sent, Err(NameLengthOverflow);
    }
    var msg: seq<byte> := [|name| as byte];
    msg := msg + field[..];
    msg := msg + content;
    assert field[..] == NameField(name);
    assert msg == Plaintext(name, content);

    var enc := cipher.seal(nonce, msg);
    ghost var frame := Frame(nonce, enc);
    for i := 0 to SENDS
      invariant sent == seq(i, _ => frame)
      invariant i > 0 ==> FitsLimit(enc)
      invariant i <= Attempts(failedConnect)
    {
      if failedConnect == Some(i) {
        return sent, Err(ConnectFailed);
      }
      if 1 + 1 + |nonce| + |enc| > MAX_FRAME {
        return [], Err(PanicFileTooBig);
      }
      sent := sent + [[0] + nonce + enc];
    }
    r := Ok(());
  }

  // ---------------------------------------------------------------------
  // Sender and receiver together
  // ---------------------------------------------------------------------

  /**
   * The receiver decodes the sender's plaintext to the name and the content
   * with its zero bytes removed: the name field's padding falls into the
   * region the receiver filters, so it disappears.
   */
  lemma {:induction false} DecodePlaintext(name: seq<byte>, content: seq<byte>)
    requires Utf8.Valid(name) && |name| < NAME_FIELD_LEN
    ensures Sync.Decode(Plaintext(name, content)) ==
      Ok(Sync.Decoded(name, Sync.RemoveZeros(content)))
  {
    var msg := Plaintext(name, content);
    var len := |name|;
    var z := Zeros(NAME_FIELD_LEN - len);
    assert msg == [len as byte] + (name + (z + content));
    assert msg[1..len + 1] == name;
    assert msg[len + 1..] == z + content;
    Sync.RemoveZerosConcat(z, content);
    Sync.RemoveZerosOfZeros(NAME_FIELD_LEN - len);
    assert Sync.RemoveZeros(msg[len + 1..]) == Sync.RemoveZeros(content);
    assert msg[0] as int == len;
    Sync.DecodeAccepts(msg);
  }

  /**
   * Round trip: a UTF-8 name that fits a byte comes back exactly, and the
   * content comes back exactly if and only if it holds no zero byte.
   */
  lemma RoundTrip(name: seq<byte>, content: seq<byte>)
    requires Utf8.Valid(name) && |name| < NAME_FIELD_LEN
    ensures Sync.Decode(Plaintext(name, content)) == Ok(Sync.Decoded(name, content)) <==> 0 !in content
  {
    DecodePlaintext(name, content);
    Sync.RemoveZerosIdentity(content);
  }

  /**
   * The size check leaves the receiver room: the frame after the action
   * byte is at most 8190 bytes, so the receiver's 8192-byte read gets all
   * of it.
   */
  lemma AcceptedFrameFitsBuffer(nonce: Sync.Nonce, enc: seq<byte>)
    requires FitsLimit(enc)
    ensures |Frame(nonce, enc)[1..]| <= Sync.BUFFER_SIZE - 2
    ensures Sync.Received(Frame(nonce, enc)[1..]) == nonce + enc
  {
    assert Frame(nonce, enc)[1..] == nonce + enc;
  }

  /**
   * With AES-GCM's 16-byte tag, the size check passes exactly for files of
   * at most 8192 - 2 - 12 - 16 - 257 = 7905 bytes.
   */
  lemma ContentLimit(cipher: Sync.Cipher, nonce: Sync.Nonce, name: seq<byte>, content: seq<byte>)
    requires Sync.Sound(cipher) && |name| < NAME_FIELD_LEN
    ensures FitsLimit(cipher.seal(nonce, Plaintext(name, content))) <==> |content| <= 7905
  {
    var p := Plaintext(name, content);
    assert |cipher.seal(nonce, p)| == |p| + Sync.TAG_LEN;
  }

  /**
   * End to end: a frame the sender transmits, arriving at a receiver that
   * has not seen this plaintext under this nonce, is accepted; the table
   * records the nonce and the write goes to `./md/<name>` with the content
   * minus its zero bytes.
   */
  lemma {:induction false} FirstDeliveryAccepted(cipher: Sync.Cipher, hash: seq<byte> -> Sync.Digest,
                                                 table: Sync.NonceTable, nonce: Sync.Nonce,
                                                 name: seq<byte>, content: seq<byte>, now: int)
    requires Sync.Sound(cipher)
    requires Prepare(name, content).Ok?
    requires FitsLimit(cipher.seal(nonce, Prepare(name, content).value))
    requires !Sync.IsReplay(table, hash(Prepare(name, content).value), nonce)
    ensures var msg := Prepare(name, content).value;
      var frame := Frame(nonce, cipher.seal(nonce, msg));
      Sync.Receive(cipher, hash, table, frame[1..], false, now) ==
        Sync.Step(Sync.Record(table, hash(msg), nonce, now),
                  Ok(Sync.FileWrite(Sync.Destination(name), Sync.RemoveZeros(content))))
  {
    var msg := Prepare(name, content).value;
    var enc := cipher.seal(nonce, msg);
    AcceptedFrameFitsBuffer(nonce, enc);
    var got := Sync.Received(Frame(nonce, enc)[1..]);
    assert got[..Sync.NONCE_LEN] == nonce && got[Sync.NONCE_LEN..] == enc;
    assert cipher.open(nonce, enc) == Some(msg);
    DecodePlaintext(name, content);
  }

  /**
   * The receiver's table and directory after connections delivering these
   * payloads (what follows the upload action byte) one after another, and
   * how each upload went.
   */
  function ReceiveAll(cipher: Sync.Cipher, hash: seq<byte> -> Sync.Digest, table: Sync.NonceTable,
                      files: map<seq<byte>, seq<byte>>, payloads: seq<seq<byte>>, now: int)
    : (r: (Sync.NonceTable, map<seq<byte>, seq<byte>>, seq<Result<Sync.FileWrite, Sync.UploadError>>))
    ensures |r.2| == |payloads|
    decreases |payloads|
  {
    if payloads == [] then (table, files, [])
    else
      var step := Sync.Receive(cipher, hash, table, payloads[0], false, now);
      var rest := ReceiveAll(cipher, hash, step.table, Sync.Persist(files, step.result), payloads[1..], now);
      (rest.0, rest.1, [step.result] + rest.2)
  }

  /**
   * The purpose of the triple send: of the three identical frames of one
   * successful `send_file`, the receiver accepts the first and rejects the
   * other two as replays, so the file is written once.
   */
  lemma {:induction false} TripleSendWritesOnce(cipher: Sync.Cipher, hash: seq<byte> -> Sync.Digest,
                                                table: Sync.NonceTable, files: map<seq<byte>, seq<byte>>,
                                                nonce: Sync.Nonce, name: seq<byte>, content: seq<byte>,
                                                now: int)
    requires Sync.Sound(cipher)
    requires Prepare(name, content).Ok?
    requires FitsLimit(cipher.seal(nonce, Prepare(name, content).value))
    requires !Sync.IsReplay(table, hash(Prepare(name, content).value), nonce)
    ensures var msg := Prepare(name, content).value;
      var frame := Frame(nonce, cipher.seal(nonce, msg));
      var r := ReceiveAll(cipher, hash, table, files, seq(SENDS, _ => frame[1..]), now);
      && r.2 == [Ok(Sync.FileWrite(Sync.Destination(name), Sync.RemoveZeros(content))),
                 Err(Sync.Replayed), Err(Sync.Replayed)]
      && r.0 == Sync.Record(table, hash(msg), nonce, now)
      && r.1 == files[Sync.Destination(name) := Sync.RemoveZeros(content)]
  {
    var msg := Prepare(name, content).value;
    var enc := cipher.seal(nonce, msg);
    var frame := Frame(nonce, enc);
    var p := frame[1..];
    var payloads := seq(SENDS, _ => p);
    FirstDeliveryAccepted(cipher, hash, table, nonce, name, content, now);
    var t1 := Sync.Record(table, hash(msg), nonce, now);
    var f1 := files[Sync.Destination(name) := Sync.RemoveZeros(content)];
    AcceptedFrameFitsBuffer(nonce, enc);
    assert p[..Sync.NONCE_LEN] == nonce && p[Sync.NONCE_LEN..] == enc;
    Sync.SecondDeliveryRejected(cipher, hash, table, p, now, now);
    assert Sync.Receive(cipher, hash, t1, p, false, now) == Sync.Step(t1, Err(Sync.Replayed));
    assert [p][1..] == [];
    assert Sync.Persist(f1, Err(Sync.Replayed)) == f1;
    assert ReceiveAll(cipher, hash, t1, f1, [], now) == (t1, f1, []);
    var one := ReceiveAll(cipher, hash, t1, f1, [p], now);
    assert one.0 == t1;
    assert one.1 == f1;
    assert one.2 == [Err(Sync.Replayed)];
    assert [p, p][1..] == [p];
    var two := ReceiveAll(cipher, hash, t1, f1, [p, p], now);
    assert two.0 == t1 && two.1 == f1;
    assert two.2 == [Err(Sync.Replayed), Err(Sync.Replayed)];
    assert payloads == [p, p, p] && payloads[1..] == [p, p];
  }
}
