/** The frame layer of format v1: the abstract AEAD, the associated data that
    pins a frame to its position, and sealing and opening of one frame. */
module Cipher {
  import opened Bytes

  const TAG_LEN: nat := 16

  /** The data algorithms; `Id` is how records and associated data name them. */
  datatype Alg = Aes256Gcm | XChaCha20Poly1305 {
    function Id(): (id: byte) {
      match this
      case Aes256Gcm => 1
      case XChaCha20Poly1305 => 2
    }

    static function FromId(id: byte): (r: Result<Alg, Error>) {
      if id == 1 then Ok(Aes256Gcm)
      else if id == 2 then Ok(XChaCha20Poly1305)
      else Err(UnknownAlg(id))
    }

    function NonceLen(): nat {
      match this
      case Aes256Gcm => 12
      case XChaCha20Poly1305 => 24
    }

    function Overhead(): (n: nat)
      ensures n >= 28
    {
      NonceLen() + TAG_LEN
    }
  }

  datatype Error =
    | Truncated(need: nat, got: nat)
    | AuthFailed
    | InvalidLength
    | InvalidFooter
    | UnknownAlg(id: byte)
    | UnknownVersion(version: byte)

  /** The two ciphers behind one interface: arguments are algorithm, key, nonce,
      associated data and message (or ciphertext with its tag). */
  datatype Aead = Aead(
    encrypt: (Alg, Bytes, Bytes, Bytes, Bytes) -> Bytes,
    decrypt: (Alg, Bytes, Bytes, Bytes, Bytes) -> Option<Bytes>
  )

  /** What the format takes from the AEAD: a 16-byte tag, decryption undoes
      encryption, and a ciphertext that decrypts is the encryption of its message. */
  ghost predicate Lawful(aead: Aead) {
    && (forall alg, key, nonce, aad, msg ::
          var ct := aead.encrypt(alg, key, nonce, aad, msg);
          |ct| == |msg| + TAG_LEN && aead.decrypt(alg, key, nonce, aad, ct) == Some(msg))
    && (forall alg, key, nonce, aad, ct ::
          var r := aead.decrypt(alg, key, nonce, aad, ct);
          r.Some? ==> ct == aead.encrypt(alg, key, nonce, aad, r.value))
  }

  /** The laws are consistent: a cipher that appends a constant tag has them. */
  lemma LawsAreConsistent()
    ensures exists aead: Aead :: Lawful(aead)
  {
    var tag: Bytes := seq(TAG_LEN, _ => 0);
    var enc := (alg: Alg, key: Bytes, nonce: Bytes, aad: Bytes, msg: Bytes) => msg + tag;
    var dec := (alg: Alg, key: Bytes, nonce: Bytes, aad: Bytes, ct: Bytes) =>
      if |ct| >= TAG_LEN && ct[|ct| - TAG_LEN..] == tag then Some(ct[..|ct| - TAG_LEN]) else None;
    forall alg, key, nonce, aad, msg: Bytes
      ensures dec(alg, key, nonce, aad, enc(alg, key, nonce, aad, msg)) == Some(msg)
    {
      assert (msg + tag)[|msg|..] == tag && (msg + tag)[..|msg|] == msg;
    }
    assert Lawful(Aead(enc, dec));
  }

  const MAGIC: Bytes := [115, 51, 97, 49]  // "s3a1"

  /** `"s3a1" ‖ alg ‖ part_number ‖ chunk_index ‖ last`. */
  function FrameAad(alg: Alg, part: nat, index: nat, last: bool): (aad: Bytes)
    ensures |aad| == 18
  {
    MAGIC + [alg.Id()] + LittleEndian(part, 4) + LittleEndian(index, 8) + [if last then 1 else 0]
  }

  /** Where the fields lie: four bytes of magic, one of algorithm, four of part number and
      eight of chunk index, little-endian both, and the flag. */
  lemma FrameAadLayout(alg: Alg, part: nat, index: nat, last: bool)
    requires part < TWO_32 && index < TWO_64
    ensures var aad := FrameAad(alg, part, index, last);
            && aad[..4] == MAGIC && aad[4] == (if alg.Aes256Gcm? then 1 else 2) && FromLittleEndian(aad[5..9]) == part
            && FromLittleEndian(aad[9..17]) == index && aad[17] == if last then 1 else 0
  {
    hide LittleEndian, FromLittleEndian;
    var aad := FrameAad(alg, part, index, last);
    assert aad[5..9] == LittleEndian(part, 4) && aad[9..17] == LittleEndian(index, 8);
    Pow256Widths();
    LittleEndianRoundTrip(part, 4);
    LittleEndianRoundTrip(index, 8);
  }

  /** No two positions share their associated data. */
  lemma FrameAadInjective(alg: Alg, part: nat, index: nat, last: bool,
                          alg': Alg, part': nat, index': nat, last': bool)
    requires part < TWO_32 && part' < TWO_32 && index < TWO_64 && index' < TWO_64
    requires FrameAad(alg, part, index, last) == FrameAad(alg', part', index', last')
    ensures alg == alg' && part == part' && index == index' && last == last'
  {
    var a, b := FrameAad(alg, part, index, last), FrameAad(alg', part', index', last');
    assert a[4] == alg.Id() && b[4] == alg'.Id();
    assert a[5..9] == LittleEndian(part, 4) && b[5..9] == LittleEndian(part', 4);
    assert a[9..17] == LittleEndian(index, 8) && b[9..17] == LittleEndian(index', 8);
    assert a[17] == (if last then 1 else 0) && b[17] == (if last' then 1 else 0);
    Pow256Widths();
    LittleEndianInjective(part, part', 4);
    LittleEndianInjective(index, index', 8);
  }

  /** `nonce ‖ ciphertext ‖ tag` for one chunk. The nonce is a parameter. */
  function SealFrame(aead: Aead, alg: Alg, key: Bytes, part: nat, index: nat, last: bool, nonce: Bytes, msg: Bytes): Bytes {
    nonce + aead.encrypt(alg, key, nonce, FrameAad(alg, part, index, last), msg)
  }

  function OpenFrame(aead: Aead, alg: Alg, key: Bytes, part: nat, index: nat, last: bool, frame: Bytes): Result<Bytes, Error> {
    if |frame| < alg.Overhead() then Err(Truncated(alg.Overhead(), |frame|))
    else
      var nl := alg.NonceLen();
      match aead.decrypt(alg, key, frame[..nl], FrameAad(alg, part, index, last), frame[nl..])
      case Some(msg) => Ok(msg)
      case None => Err(AuthFailed)
  }

  /** Too few bytes are told apart from bytes that do not authenticate. */
  lemma OpenErrors(aead: Aead, alg: Alg, key: Bytes, part: nat, index: nat, last: bool, frame: Bytes)
    ensures var r := OpenFrame(aead, alg, key, part, index, last, frame);
            r.Err? ==> r.error == if |frame| < alg.Overhead() then Truncated(alg.Overhead(), |frame|) else AuthFailed
    ensures |frame| < alg.Overhead() ==> OpenFrame(aead, alg, key, part, index, last, frame).Err?
  {
  }

  /** Opening at the position a message was sealed for returns the message. */
  lemma OpenSeal(aead: Aead, alg: Alg, key: Bytes, part: nat, index: nat, last: bool, nonce: Bytes, msg: Bytes)
    requires Lawful(aead) && |nonce| == alg.NonceLen()
    ensures var frame := SealFrame(aead, alg, key, part, index, last, nonce, msg);
            |frame| == |msg| + alg.Overhead() && OpenFrame(aead, alg, key, part, index, last, frame) == Ok(msg)
  {
    var ct := aead.encrypt(alg, key, nonce, FrameAad(alg, part, index, last), msg);
    var frame := SealFrame(aead, alg, key, part, index, last, nonce, msg);
    assert |ct| == |msg| + TAG_LEN;
    assert frame[..alg.NonceLen()] == nonce && frame[alg.NonceLen()..] == ct;
  }

  /** Nothing but a frame sealed for that position opens there. */
  lemma OpensOnlySealed(aead: Aead, alg: Alg, key: Bytes, part: nat, index: nat, last: bool, frame: Bytes)
    requires Lawful(aead) && OpenFrame(aead, alg, key, part, index, last, frame).Ok?
    ensures var msg := OpenFrame(aead, alg, key, part, index, last, frame).value;
            |frame| == |msg| + alg.Overhead()
            && frame == SealFrame(aead, alg, key, part, index, last, frame[..alg.NonceLen()], msg)
  {
    var nl := alg.NonceLen();
    var msg := OpenFrame(aead, alg, key, part, index, last, frame).value;
    assert aead.decrypt(alg, key, frame[..nl], FrameAad(alg, part, index, last), frame[nl..]) == Some(msg);
    assert frame == frame[..nl] + frame[nl..];
  }

  /** One stream's sealing side (chunk index, last flag, chunk), nonces included,
      and the opening side that a reader holds. */
  type Sealer = (nat, bool, Bytes) -> Bytes
  type Opener = (nat, bool, Bytes) -> Result<Bytes, Error>

  /** The nonce drawn for each chunk of one stream. */
  type Nonces = nat -> Bytes

  ghost predicate ValidNonces(alg: Alg, nonces: Nonces) {
    forall i: nat :: |nonces(i)| == alg.NonceLen()
  }

  function SealerOf(aead: Aead, alg: Alg, key: Bytes, part: nat, nonces: Nonces): Sealer {
    (index: nat, last: bool, msg: Bytes) => SealFrame(aead, alg, key, part, index, last, nonces(index), msg)
  }

  function OpenerOf(aead: Aead, alg: Alg, key: Bytes, part: nat): Opener {
    (index: nat, last: bool, frame: Bytes) => OpenFrame(aead, alg, key, part, index, last, frame)
  }

  /** What the streaming layer needs: frames have the announced size, and the
      opener undoes the sealer at the same position. */
  ghost predicate Paired(alg: Alg, seal: Sealer, open: Opener) {
    forall index: nat, last: bool, msg: Bytes ::
      |seal(index, last, msg)| == |msg| + alg.Overhead() && open(index, last, seal(index, last, msg)) == Ok(msg)
  }

  /** A part's sealer and the opener for its number and key belong together. */
  lemma PairedStreams(aead: Aead, alg: Alg, key: Bytes, part: nat, nonces: Nonces)
    requires Lawful(aead) && ValidNonces(alg, nonces)
    ensures Paired(alg, SealerOf(aead, alg, key, part, nonces), OpenerOf(aead, alg, key, part))
  {
    var seal, open := SealerOf(aead, alg, key, part, nonces), OpenerOf(aead, alg, key, part);
    forall index: nat, last: bool, msg: Bytes
      ensures |seal(index, last, msg)| == |msg| + alg.Overhead() && open(index, last, seal(index, last, msg)) == Ok(msg)
    {
      OpenSeal(aead, alg, key, part, index, last, nonces(index), msg);
    }
  }

  /** How a stream is cut: its algorithm (hence the frame overhead) and chunk size. */
  datatype Geometry = Geometry(alg: Alg, chunkSize: nat) {
    /** The size of a frame that holds a full chunk. */
    function FrameSize(): nat {
      chunkSize + alg.Overhead()
    }
  }
}
