/** The canonical archive writer and an independent reader for what it writes. */
module ZipArchive {
  import opened Options
  import opened ZipFormat
  import opened PathOrder
  import Crc32

  datatype Mode = File | Executable | Symlink {
    /** The Unix mode bits kept in the external attributes, file type included. */
    function UnixMode(): nat {
      match this
      case File => 33188
      case Executable => 33261
      case Symlink => 41471
    }
  }

  datatype Entry = Entry(path: Bytes, mode: Mode, content: Bytes)

  function PathOf(e: Entry): Bytes { e.path }

  // ----- byte layout -----

  const LOCAL_SIGNATURE: nat := 0x0403_4b50
  const CENTRAL_SIGNATURE: nat := 0x0201_4b50
  const EOCD_SIGNATURE: nat := 0x0605_4b50
  const DOS_TIME: nat := 0x0000
  const DOS_DATE: nat := 0x0021
  const VERSION_NEEDED: nat := 20
  const VERSION_MADE_BY: nat := 0x0314
  const MAX16: nat := 0xFFFF
  const MAX32: nat := 0xFFFF_FFFF

  function LocalHeader(crc: nat, size: nat, nameLen: nat): seq<Field> {
    [F32(LOCAL_SIGNATURE), F16(VERSION_NEEDED), F16(0), F16(0), F16(DOS_TIME), F16(DOS_DATE),
     F32(crc), F32(size), F32(size), F16(nameLen), F16(0)]
  }

  function CentralHeader(crc: nat, size: nat, nameLen: nat, unixMode: nat, offset: nat): seq<Field> {
    [F32(CENTRAL_SIGNATURE), F16(VERSION_MADE_BY), F16(VERSION_NEEDED), F16(0), F16(0), F16(DOS_TIME), F16(DOS_DATE),
     F32(crc), F32(size), F32(size), F16(nameLen), F16(0), F16(0), F16(0), F16(0),
     F32(unixMode * 0x1_0000), F32(offset)]
  }

  function Eocd(count: nat, cdSize: nat, cdOffset: nat): seq<Field> {
    [F32(EOCD_SIGNATURE), F16(0), F16(0), F16(count), F16(count), F32(cdSize), F32(cdOffset), F16(0)]
  }

  function LocalFields(e: Entry): seq<Field> {
    LocalHeader(Crc32.Checksum(e.content), |e.content|, |e.path|)
  }

  function CentralFields(e: Entry, offset: nat): seq<Field> {
    CentralHeader(Crc32.Checksum(e.content), |e.content|, |e.path|, e.mode.UnixMode(), offset)
  }

  function LocalRecord(e: Entry): Bytes { Encode(LocalFields(e)) + (e.path + e.content) }

  function CentralRecord(e: Entry, offset: nat): Bytes { Encode(CentralFields(e, offset)) + e.path }

  function Locals(es: seq<Entry>): (rs: seq<Bytes>)
    ensures |rs| == |es|
  {
    seq(|es|, i requires 0 <= i < |es| => LocalRecord(es[i]))
  }

  /** Where the local record of entry `i` starts. */
  function Offset(es: seq<Entry>, i: nat): nat
    requires i <= |es|
  {
    |Join(Locals(es), i)|
  }

  function Centrals(es: seq<Entry>): (rs: seq<Bytes>)
    ensures |rs| == |es|
  {
    seq(|es|, i requires 0 <= i < |es| => CentralRecord(es[i], Offset(es, i)))
  }

  function Body(es: seq<Entry>): Bytes { Join(Locals(es), |es|) }

  function Central(es: seq<Entry>): Bytes { Join(Centrals(es), |es|) }

  function ZipBytes(es: seq<Entry>): Bytes {
    Body(es) + (Central(es) + Encode(Eocd(|es|, |Central(es)|, |Body(es)|)))
  }

  /** The classic 16- and 32-bit fields are wide enough. */
  predicate EntryFits(e: Entry) { |e.path| <= MAX16 && |e.content| <= MAX32 }

  ghost predicate Fits(es: seq<Entry>) {
    && |es| <= MAX16 && |Body(es)| <= MAX32 && |Central(es)| <= MAX32
    && forall e :: e in es ==> EntryFits(e)
  }

  /** What is too large for the format without its 64-bit extensions: more than 65535 members or bytes
      of path, or 4 GiB of content, of local records or of directory. */
  lemma FitsIff(es: seq<Entry>)
    ensures Fits(es) <==>
            && |es| < 0x1_0000 && |Body(es)| < 0x1_0000_0000 && |Central(es)| < 0x1_0000_0000
            && forall i :: 0 <= i < |es| ==> |es[i].path| < 0x1_0000 && |es[i].content| < 0x1_0000_0000
  {
    hide Body, Central;
    if Fits(es) {
      forall i | 0 <= i < |es| ensures EntryFits(es[i]) { assert es[i] in es; }
    }
  }

  // ----- the writer, statement by statement -----

  /** `u16_field`: `None` is the panic. */
  function U16Field(n: nat): Option<nat> { if n <= MAX16 then Some(n) else None }

  function U32Field(n: nat): Option<nat> { if n <= MAX32 then Some(n) else None }

  method WriteFields(out: Bytes, fs: seq<Field>) returns (r: Bytes)
    ensures r == out + Encode(fs)
  {
    r := out;
    for i := 0 to |fs|
      invariant r == out + Encode(fs[..i])
    {
      assert fs[..i + 1] == fs[..i] + [fs[i]];
      EncodeConcat(fs[..i], [fs[i]]);
      r := r + LittleEndian(fs[i].value, fs[i].width);
    }
    assert fs[..|fs|] == fs;
  }

  method WriteLocalHeader(out: Bytes, e: Entry) returns (r: Option<Bytes>)
    ensures r == if EntryFits(e) then Some(out + LocalRecord(e)) else None
  {
    hide Encode, LocalHeader, Crc32.Of;
    var crc := Crc32.Compute(e.content);
    var size := U32Field(|e.content|);
    if size.None? { return None; }
    var nameLen := U16Field(|e.path|);
    if nameLen.None? { return None; }
    var o := WriteFields(out, LocalHeader(crc as nat, size.value, nameLen.value));
    o := o + e.path;
    o := o + e.content;
    assert o == out + LocalRecord(e);
    r := Some(o);
  }

  method WriteCentralHeader(out: Bytes, e: Entry, offset: nat) returns (r: Option<Bytes>)
    ensures r == if EntryFits(e) then Some(out + CentralRecord(e, offset)) else None
  {
    hide Encode, CentralHeader, Crc32.Of;
    var crc := Crc32.Compute(e.content);
    var size := U32Field(|e.content|);
    if size.None? { return None; }
    var nameLen := U16Field(|e.path|);
    if nameLen.None? { return None; }
    var o := WriteFields(out, CentralHeader(crc as nat, size.value, nameLen.value, e.mode.UnixMode(), offset));
    o := o + e.path;
    assert o == out + CentralRecord(e, offset);
    r := Some(o);
  }

  /** Shift the greater ones back until `e` fits. */
  method InsertByPath(es: seq<Entry>, e: Entry) returns (r: seq<Entry>)
    ensures r == Insert(PathOf, es, e)
  {
    var k := |es|;
    assert es[..k] == es;
    while k > 0 && !PathLe(es[k - 1].path, e.path)
      invariant 0 <= k <= |es|
      invariant Insert(PathOf, es, e) == Insert(PathOf, es[..k], e) + es[k..]
    {
      assert es[..k][..k - 1] == es[..k - 1];
      assert es[k - 1..] == [es[k - 1]] + es[k..];
      k := k - 1;
    }
    r := es[..k] + [e] + es[k..];
  }

  method SortByPath(es: seq<Entry>) returns (sorted: seq<Entry>)
    ensures sorted == Sort(PathOf, es)
  {
    sorted := [];
    for i := 0 to |es|
      invariant sorted == Sort(PathOf, es[..i])
    {
      assert es[..i + 1][..i] == es[..i];
      sorted := InsertByPath(sorted, es[i]);
    }
    assert es[..|es|] == es;
  }

  class CanonicalArchive {
    var entries: seq<Entry>

    constructor ()
      ensures entries == []
    {
      entries := [];
    }

    method Add(e: Entry)
      modifies this
      ensures entries == old(entries) + [e]
    {
      entries := entries + [e];
    }

    /** Serialise; `None` is the panic on a field that Zip64 would be needed for. */
    method IntoZip() returns (zip: Option<Bytes>)
      modifies this
      ensures entries == Sort(PathOf, old(entries))
      ensures zip == if Fits(entries) then Some(ZipBytes(entries)) else None
    {
      hide Encode, Eocd, LocalRecord, CentralRecord, Sort, EntryFits, Locals, Centrals;
      entries := SortByPath(entries);
      var es := entries;
      var body, offsets, ok := WriteLocals(es);
      if !ok { return None; }
      var central := WriteCentrals(es, offsets);
      if central.None? { return None; }
      var cdOffset := U32Field(|body|);
      if cdOffset.None? { return None; }
      var cdSize := U32Field(|central.value|);
      if cdSize.None? { return None; }
      var count := U16Field(|es|);
      if count.None? { return None; }
      var out := WriteFields(central.value, Eocd(count.value, cdSize.value, cdOffset.value));
      zip := Some(body + out);
    }
  }

  lemma LocalAt(es: seq<Entry>, i: nat)
    requires i < |es|
    ensures Locals(es)[i] == LocalRecord(es[i])
  {
  }

  /** The first loop of `into_zip`: local headers and data, remembering where each starts. */
  method WriteLocals(es: seq<Entry>) returns (body: Bytes, offsets: seq<nat>, ok: bool)
    ensures ok ==> body == Body(es) && |offsets| == |es| && (forall j :: 0 <= j < |es| ==> offsets[j] == Offset(es, j))
    ensures ok ==> forall e :: e in es ==> EntryFits(e)
    ensures !ok ==> |Body(es)| > MAX32 || exists j :: 0 <= j < |es| && !EntryFits(es[j])
  {
    hide LocalRecord, EntryFits, Locals;
    body, offsets, ok := [], [], true;
    var i := 0;
    while i < |es|
      invariant i <= |es| && |offsets| == i && body == Join(Locals(es), i)
      invariant forall j :: 0 <= j < i ==> offsets[j] == Offset(es, j) && EntryFits(es[j])
    {
      JoinMonotone(Locals(es), i, |es|);
      var off := U32Field(|body|);
      if off.None? { return body, offsets, false; }
      var b := WriteLocalHeader(body, es[i]);
      if b.None? { return body, offsets, false; }
      offsets := offsets + [off.value];
      LocalAt(es, i);
      body := b.value;
      i := i + 1;
    }
  }

  /** The second loop: one central header per entry, at the remembered offset. */
  method WriteCentrals(es: seq<Entry>, offsets: seq<nat>) returns (r: Option<Bytes>)
    requires |offsets| == |es| && forall j :: 0 <= j < |es| ==> offsets[j] == Offset(es, j)
    ensures r == if forall e :: e in es ==> EntryFits(e) then Some(Central(es)) else None
  {
    hide LocalRecord, CentralRecord, Offset;
    var central: Bytes := [];
    var i := 0;
    while i < |es|
      invariant i <= |es| && central == Join(Centrals(es), i)
      invariant forall j :: 0 <= j < i ==> EntryFits(es[j])
    {
      var c := WriteCentralHeader(central, es[i], offsets[i]);
      if c.None? { return None; }
      assert c.value == central + Centrals(es)[i];
      central := c.value;
      i := i + 1;
    }
    r := Some(central);
  }
}
