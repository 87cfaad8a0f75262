/** The multipart footer: the record of part sizes, its byte format, and the sealed
    form with the 16-byte trailer that ends a completed object. */
module FooterCodec {
  import opened Bytes
  import opened Cipher
  import opened Layout

  const FOOTER_PART_NUMBER: nat := 0xFFFF_FFFF
  const TRAILER_LEN: nat := 16
  const FOOTER_MAGIC: Bytes := [83, 51, 65, 49, 70, 79, 79, 84]  // "S3A1FOOT"
  const MAX_FOOTER_LEN: nat := 128 * 1024
  const RECORD_VERSION: byte := 1
  const MAX_PART_NUMBER: nat := 10000

  datatype Footer = Footer(alg: Alg, parts: seq<PartSize>, totalPt: nat, md5: Option<Bytes>)

  // ---------------------------------------------------------------- the record format

  function EncodeParts(parts: seq<PartSize>): Bytes {
    if |parts| == 0 then []
    else
      var last := parts[|parts| - 1];
      EncodeParts(parts[..|parts| - 1]) + LittleEndian(last.number, 4) + LittleEndian(last.ptLen, 8)
  }

  /** Version, algorithm and part count; a count beyond 32 bits loses its high bits. */
  function Header(alg: Alg, count: nat): Bytes {
    [RECORD_VERSION, alg.Id()] + LittleEndian(count, 4)
  }

  function EncodeMd5(md5: Option<Bytes>): Bytes {
    match md5
    case None => [0]
    case Some(digest) => [1] + digest
  }

  function Record(f: Footer): Bytes {
    Header(f.alg, |f.parts|) + EncodeParts(f.parts) + LittleEndian(f.totalPt, 8) + EncodeMd5(f.md5)
  }

  /** The values the record's fixed-width fields can hold. */
  predicate Fits(parts: seq<PartSize>) {
    |parts| < TWO_32 && forall k :: 0 <= k < |parts| ==> parts[k].number < TWO_32 && parts[k].ptLen < TWO_64
  }

  predicate Ascending(parts: seq<PartSize>) {
    forall i, j :: 0 <= i < j < |parts| ==> parts[i].number < parts[j].number
  }

  predicate Representable(f: Footer) {
    Fits(f.parts) && f.totalPt < TWO_64 && (f.md5.Some? ==> |f.md5.value| == 16)
  }

  /** Strictly ascending part numbers and a total that is the sum of the sizes, which a
      reader adds up in 64 bits. */
  predicate WellFormed(f: Footer) {
    Representable(f) && Ascending(f.parts) && f.totalPt == PtTotal(f.parts) % TWO_64
  }

  lemma {:induction false} EncodePartsLength(parts: seq<PartSize>)
    ensures |EncodeParts(parts)| == 12 * |parts|
  {
    if |parts| > 0 {
      EncodePartsLength(parts[..|parts| - 1]);
    }
  }

  lemma NoEntries()
    ensures EncodeParts([]) == []
  {
  }

  lemma OneMoreEntry(before: Bytes, parts: seq<PartSize>, part: PartSize)
    ensures before + EncodeParts(parts + [part])
            == before + EncodeParts(parts) + LittleEndian(part.number, 4) + LittleEndian(part.ptLen, 8)
  {
    hide LittleEndian;
    assert (parts + [part])[..|parts|] == parts;
  }

  /** Where the last entry of a run of entries lies. */
  lemma LastEntry(parts: seq<PartSize>)
    requires |parts| > 0
    ensures var n := |parts| - 1;
            var b := EncodeParts(parts);
            && |b| == 12 * n + 12 && b[..12 * n] == EncodeParts(parts[..n])
            && b[12 * n..12 * n + 4] == LittleEndian(parts[n].number, 4) && b[12 * n + 4..] == LittleEndian(parts[n].ptLen, 8)
  {
    hide LittleEndian;
    EncodePartsLength(parts[..|parts| - 1]);
  }

  lemma {:induction false} EncodePartsInjective(p: seq<PartSize>, q: seq<PartSize>)
    requires Fits(p) && Fits(q) && EncodeParts(p) == EncodeParts(q)
    ensures p == q
  {
    hide LittleEndian, Pow256, EncodeParts;
    EncodePartsLength(p);
    EncodePartsLength(q);
    if |p| > 0 {
      var n := |p| - 1;
      LastEntry(p);
      LastEntry(q);
      EncodePartsInjective(p[..n], q[..n]);
      Pow256Widths();
      LittleEndianInjective(p[n].number, q[n].number, 4);
      LittleEndianInjective(p[n].ptLen, q[n].ptLen, 8);
      assert p == p[..n] + [p[n]] && q == q[..n] + [q[n]];
    }
  }

  /** Bytes whose lengths, version, algorithm and flag are those of a record. */
  predicate HasFields(b: Bytes) {
    && |b| >= 6 && b[0] == RECORD_VERSION && Alg.FromId(b[1]).Ok?
    && var end := 6 + 12 * FromLittleEndian(b[2..6]) + 8;
    |b| > end && HasMd5(b[end..])
  }

  predicate HasMd5(b: Bytes)
    requires |b| > 0
  {
    (b[0] == 0 && |b| == 1) || (b[0] == 1 && |b| == 17)
  }

  /** Where the fields of a record lie. */
  lemma RecordShape(f: Footer)
    requires Representable(f)
    ensures var b := Record(f);
            var end := 6 + 12 * |f.parts|;
            && |b| == end + 8 + |EncodeMd5(f.md5)| && b[0] == RECORD_VERSION && b[1] == f.alg.Id()
            && FromLittleEndian(b[2..6]) == |f.parts| && b[6..end] == EncodeParts(f.parts)
            && FromLittleEndian(b[end..end + 8]) == f.totalPt && b[end + 8..] == EncodeMd5(f.md5)
    ensures HasFields(Record(f))
  {
    hide LittleEndian, FromLittleEndian, EncodeParts, Pow256;
    EncodePartsLength(f.parts);
    var b, end := Record(f), 6 + 12 * |f.parts|;
    assert b[2..6] == LittleEndian(|f.parts|, 4);
    assert b[end..end + 8] == LittleEndian(f.totalPt, 8);
    assert b[end + 8..] == EncodeMd5(f.md5);
    Pow256Widths();
    LittleEndianRoundTrip(|f.parts|, 4);
    LittleEndianRoundTrip(f.totalPt, 8);
  }

  /** A record has one reading. */
  lemma RecordInjective(f: Footer, f': Footer)
    requires Representable(f) && Representable(f') && Record(f) == Record(f')
    ensures f == f'
  {
    RecordShape(f);
    RecordShape(f');
    EncodePartsInjective(f.parts, f'.parts);
    var md5, md5' := EncodeMd5(f.md5), EncodeMd5(f'.md5);
    assert md5[0] == md5'[0] && md5[1..] == md5'[1..];
  }

  method EncodeRecord(f: Footer) returns (b: Bytes)
    ensures b == Record(f)
  {
    b := [RECORD_VERSION];
    b := b + [f.alg.Id()];
    b := b + LittleEndian(|f.parts|, 4);
    for i := 0 to |f.parts|
      invariant b == Header(f.alg, |f.parts|) + EncodeParts(f.parts[..i])
    {
      assert f.parts[..i + 1][..i] == f.parts[..i];
      b := b + LittleEndian(f.parts[i].number, 4);
      b := b + LittleEndian(f.parts[i].ptLen, 8);
    }
    assert f.parts[..|f.parts|] == f.parts;
    b := b + LittleEndian(f.totalPt, 8);
    match f.md5
    case Some(digest) =>
      b := b + [1];
      b := b + digest;
    case None =>
      b := b + [0];
  }

  // ---------------------------------------------------------------- reading a record

  /** A position in a record; every read moves it behind the field. */
  class Cursor {
    const buf: Bytes
    var pos: nat

    ghost predicate Valid()
      reads this
    {
      pos <= |buf|
    }

    constructor (buf: Bytes)
      ensures Valid() && this.buf == buf && pos == 0
    {
      this.buf := buf;
      pos := 0;
    }

    method Take(n: nat) returns (r: Result<Bytes, Error>)
      requires Valid()
      modifies this
      ensures Valid() && (r.Ok? <==> old(pos) + n <= |buf|)
      ensures r.Ok? ==> pos == old(pos) + n && r.value == buf[old(pos)..pos] && buf[..pos] == buf[..old(pos)] + r.value
      ensures r.Err? ==> pos == old(pos) && r.error == InvalidFooter
    {
      if |buf| < pos + n {
        return Err(InvalidFooter);
      }
      var s := buf[pos..pos + n];
      pos := pos + n;
      return Ok(s);
    }

    method U8() returns (r: Result<byte, Error>)
      requires Valid()
      modifies this
      ensures Valid() && (r.Ok? <==> old(pos) < |buf|)
      ensures r.Ok? ==> pos == old(pos) + 1 && r.value == buf[old(pos)] && buf[..pos] == buf[..old(pos)] + [r.value]
      ensures r.Err? ==> r.error == InvalidFooter
    {
      var s :- Take(1);
      return Ok(s[0]);
    }

    /** Reads an integer of `width` bytes. */
    method Integer(width: nat) returns (r: Result<nat, Error>)
      requires Valid()
      modifies this
      ensures Valid() && (r.Ok? <==> old(pos) + width <= |buf|)
      ensures r.Ok? ==>
                && pos == old(pos) + width && r.value == FromLittleEndian(buf[old(pos)..pos])
                && r.value < Pow256(width) && buf[..pos] == buf[..old(pos)] + LittleEndian(r.value, width)
      ensures r.Err? ==> r.error == InvalidFooter
    {
      var s :- Take(width);
      LittleEndianReencode(s);
      return Ok(FromLittleEndian(s));
    }

    method Parts(count: nat) returns (r: Result<seq<PartSize>, Error>)
      requires Valid() && count < TWO_32
      modifies this
      ensures Valid() && (r.Ok? <==> old(pos) + 12 * count <= |buf|)
      ensures r.Ok? ==>
                && pos == old(pos) + 12 * count && |r.value| == count && Fits(r.value)
                && buf[..pos] == buf[..old(pos)] + EncodeParts(r.value)
      ensures r.Err? ==> r.error == InvalidFooter
    {
      hide LittleEndian, FromLittleEndian, Pow256, EncodeParts;
      Pow256Widths();
      NoEntries();
      var parts := [];
      for i := 0 to count
        invariant Valid() && pos == old(pos) + 12 * i
        invariant |parts| == i && Fits(parts) && buf[..pos] == buf[..old(pos)] + EncodeParts(parts)
      {
        var number :- Integer(4);
        var size :- Integer(8);
        OneMoreEntry(buf[..old(pos)], parts, PartSize(number, size));
        parts := parts + [PartSize(number, size)];
      }
      return Ok(parts);
    }

    /** Reads the optional digest, which must end the record. */
    method Md5() returns (r: Result<Option<Bytes>, Error>)
      requires Valid()
      modifies this
      ensures r.Ok? <==> old(pos) < |buf| && HasMd5(buf[old(pos)..])
      ensures r.Ok? ==>
                && buf == buf[..old(pos)] + EncodeMd5(r.value)
                && (r.value.Some? ==> |r.value.value| == 16)
      ensures r.Err? ==> r.error == InvalidFooter
    {
      var flag :- U8();
      var md5 := None;
      if flag == 1 {
        var digest :- Take(16);
        md5 := Some(digest);
      } else if flag != 0 {
        return Err(InvalidFooter);
      }
      if pos != |buf| {
        return Err(InvalidFooter);
      }
      assert buf[..pos] == buf;
      return Ok(md5);
    }
  }

  ghost predicate IsRecord(b: Bytes) {
    exists f :: WellFormed(f) && Record(f) == b
  }

  /** The error for bytes that are not a record: a foreign version or algorithm is named. */
  function RecordError(b: Bytes): Error {
    if |b| > 0 && b[0] != RECORD_VERSION then UnknownVersion(b[0])
    else if |b| > 1 && Alg.FromId(b[1]).Err? then Alg.FromId(b[1]).error
    else InvalidFooter
  }

  method ReadFields(b: Bytes) returns (r: Result<Footer, Error>)
    ensures r.Ok? <==> HasFields(b)
    ensures r.Ok? ==> Representable(r.value) && Record(r.value) == b
    ensures r.Err? ==> r.error == RecordError(b)
  {
    hide HasMd5, EncodeMd5, EncodeParts, LittleEndian, FromLittleEndian, Pow256;
    Pow256Widths();
    var cursor := new Cursor(b);
    var version :- cursor.U8();
    if version != RECORD_VERSION {
      return Err(UnknownVersion(version));
    }
    var id :- cursor.U8();
    var alg :- Alg.FromId(id);
    var count :- cursor.Integer(4);
    assert b[..6] == Header(alg, count);
    var parts :- cursor.Parts(count);
    var totalPt :- cursor.Integer(8);
    var md5 :- cursor.Md5();
    return Ok(Footer(alg, parts, totalPt, md5));
  }

  /** Accepts exactly the records of well-formed footers; what it returns encodes to the
      bytes it was read from. */
  method DecodeRecord(b: Bytes) returns (r: Result<Footer, Error>)
    ensures r.Ok? <==> IsRecord(b)
    ensures r.Ok? ==> WellFormed(r.value) && Record(r.value) == b
    ensures r.Err? ==> r.error == RecordError(b)
  {
    hide Record, HasFields, Fits, Ascending;
    if IsRecord(b) {
      ghost var f :| WellFormed(f) && Record(f) == b;
      RecordShape(f);
    }
    var f :- ReadFields(b);
    if IsRecord(b) {
      ghost var f' :| WellFormed(f') && Record(f') == b;
      RecordInjective(f, f');
    }
    RecordShape(f);
    assert RecordError(b) == InvalidFooter;
    r := CheckRecord(f);
  }

  /** The format invariants that the fields of a record must satisfy. */
  method CheckRecord(f: Footer) returns (r: Result<Footer, Error>)
    requires Representable(f)
    ensures r == if WellFormed(f) then Ok(f) else Err(InvalidFooter)
  {
    hide Fits, Ascending, PtTotal;
    var ascending := IsAscending(f.parts);
    if !ascending {
      return Err(InvalidFooter);
    }
    var sum := Sum64(f.parts);
    if sum != f.totalPt {
      return Err(InvalidFooter);
    }
    return Ok(f);
  }

  /** Neighbours decide whether all numbers ascend. */
  method IsAscending(parts: seq<PartSize>) returns (ascending: bool)
    ensures ascending <==> Ascending(parts)
  {
    var i := 1;
    while i < |parts|
      invariant 1 <= i
      invariant Ascending(parts[..Min(i, |parts|)])
    {
      if parts[i - 1].number >= parts[i].number {
        return false;
      }
      i := i + 1;
    }
    assert parts[..|parts|] == parts;
    return true;
  }

  method Sum64(parts: seq<PartSize>) returns (sum: nat)
    ensures sum == PtTotal(parts) % TWO_64
  {
    sum := 0;
    for i := 0 to |parts|
      invariant sum == PtTotal(parts[..i]) % TWO_64
    {
      assert parts[..i + 1][..i] == parts[..i];
      sum := (sum + parts[i].ptLen) % TWO_64;
    }
    assert parts[..|parts|] == parts;
  }
}
