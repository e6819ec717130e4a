/** A reader for ZIP archives that finds every member from the end of the file: the end
    record, then the central directory, then each local header. It follows the format, not
    the writer, and checks what a careful reader checks. */
module ZipReader {
  import opened Options
  import opened ZipFormat
  import opened PathOrder
  import opened ZipArchive
  import Crc32

  const LOCAL_WIDTHS: seq<nat> := [4, 2, 2, 2, 2, 2, 4, 4, 4, 2, 2]
  const CENTRAL_WIDTHS: seq<nat> := [4, 2, 2, 2, 2, 2, 2, 4, 4, 4, 2, 2, 2, 2, 2, 4, 4]
  const EOCD_WIDTHS: seq<nat> := [4, 2, 2, 2, 2, 4, 4, 2]

  function ModeOf(unixMode: nat): Option<Mode> {
    if unixMode == 0x81A4 then Some(File)             // 0100644
    else if unixMode == 0x81ED then Some(Executable)  // 0100755
    else if unixMode == 0xA1FF then Some(Symlink)     // 0120777
    else None
  }

  /** The bytes of `z` from `off` on, if there are `n` of them. */
  function Slice(z: Bytes, off: nat, n: nat): Option<Bytes> {
    if off + n <= |z| then Some(z[off..off + n]) else None
  }

  function Record(z: Bytes, off: nat, ws: seq<nat>): (r: Option<seq<nat>>)
    ensures r.Some? ==> |r.value| == |ws|
  {
    if off + Sum(ws) <= |z| then Some(ReadFields(z, off, ws)) else None
  }

  /** What a local header says. */
  datatype LocalInfo = LocalInfo(crc: nat, packed: nat, size: nat, nameLen: nat, extraLen: nat)

  /** What a central directory header says: `trailer` is the length of extra field and comment. */
  datatype CentralInfo = CentralInfo(crc: nat, packed: nat, size: nat, nameLen: nat, trailer: nat, unixMode: nat,
                                     offset: nat)

  function LocalInfoOf(h: seq<nat>): Option<LocalInfo>
    requires |h| == 11
  {
    if h[0] == 0x0403_4b50 && h[3] == 0 then Some(LocalInfo(h[6], h[7], h[8], h[9], h[10])) else None
  }

  function CentralInfoOf(h: seq<nat>): Option<CentralInfo>
    requires |h| == 17
  {
    if h[0] == 0x0201_4b50 && h[4] == 0
    then Some(CentralInfo(h[7], h[8], h[9], h[10], h[11] + h[12], h[15] / 0x1_0000, h[16]))
    else None
  }

  /** The local header at `off`, if one of a stored member stands there. */
  function LocalAt(z: Bytes, off: nat): Option<LocalInfo> {
    match Record(z, off, LOCAL_WIDTHS)
    case Some(h) => LocalInfoOf(h)
    case None => None
  }

  function CentralAt(z: Bytes, off: nat): Option<CentralInfo> {
    match Record(z, off, CENTRAL_WIDTHS)
    case Some(h) => CentralInfoOf(h)
    case None => None
  }

  /** The member whose local header stands at `off`, if it agrees with what the central
      directory says about it. */
  function ReadMember(z: Bytes, off: nat, name: Bytes, mode: Mode, crc: nat, size: nat): Option<Entry> {
    match LocalAt(z, off)
    case None => None
    case Some(h) =>
      var nameAt := off + Sum(LOCAL_WIDTHS);
      if h.crc != crc || h.packed != size || h.size != size || Slice(z, nameAt, h.nameLen) != Some(name) then None
      else match Slice(z, nameAt + h.nameLen + h.extraLen, size)
        case None => None
        case Some(content) => if Crc32.Checksum(content) != crc then None else Some(Entry(name, mode, content))
  }

  function MemberOf(z: Bytes, h: CentralInfo, name: Option<Bytes>, mode: Option<Mode>): Option<Entry> {
    if name.Some? && mode.Some? && h.packed == h.size
      then ReadMember(z, h.offset, name.value, mode.value, h.crc, h.size)
    else None
  }

  /** The member described by the central header at `off`, and where the next one starts. */
  function ReadCentral(z: Bytes, off: nat): Option<(Entry, nat)> {
    match CentralAt(z, off)
    case None => None
    case Some(h) =>
      var nameAt := off + Sum(CENTRAL_WIDTHS);
      match MemberOf(z, h, Slice(z, nameAt, h.nameLen), ModeOf(h.unixMode))
      case Some(e) => Some((e, nameAt + h.nameLen + h.trailer))
      case None => None
  }

  function ReadDirectory(z: Bytes, off: nat, count: nat): Option<(seq<Entry>, nat)>
    decreases count
  {
    if count == 0 then Some(([], off))
    else match ReadCentral(z, off)
      case None => None
      case Some((e, next)) =>
        match ReadDirectory(z, next, count - 1)
        case None => None
        case Some((rest, end)) => Some(([e] + rest, end))
  }

  /** Read an archive without a trailing comment; the directory must fill the space between
      its recorded offset and the end record. */
  function ReadZip(z: Bytes): Option<seq<Entry>> {
    if |z| < Sum(EOCD_WIDTHS) then None
    else
      var eocdAt: nat := |z| - Sum(EOCD_WIDTHS);
      var h := ReadFields(z, eocdAt, EOCD_WIDTHS);
      if h[0] != 0x0605_4b50 || h[1] != 0 || h[2] != 0 || h[3] != h[4] || h[7] != 0 || h[6] + h[5] != eocdAt
        then None
      else match ReadDirectory(z, h[6], h[4])
        case Some((es, end)) => if end == eocdAt then Some(es) else None
        case None => None
  }

  // ----- the reader undoes the writer -----

  lemma FieldRanges()
    ensures Power256(2) == MAX16 + 1 && Power256(4) == MAX32 + 1
  {
    assert Power256(4) == 256 * (256 * Power256(2));
  }

  predicate Classic(f: Field) {
    (f.width == 2 && f.value <= MAX16) || (f.width == 4 && f.value <= MAX32)
  }

  /** A record whose fields fit is read back where it stands. */
  lemma ReadsRecord(z: Bytes, off: nat, fs: seq<Field>, ws: seq<nat>)
    requires (forall i :: 0 <= i < |fs| ==> Classic(fs[i])) && Widths(fs) == ws && Lands(z, off, Encode(fs))
    ensures |Encode(fs)| == Sum(ws) && Record(z, off, ws) == Some(Values(fs))
  {
    FieldRanges();
    EncodeLength(fs);
    ReadBack(z, off, fs);
  }

  lemma LocalShape(crc: nat, size: nat, nameLen: nat)
    requires crc <= MAX32 && size <= MAX32 && nameLen <= MAX16
    ensures var fs := LocalHeader(crc, size, nameLen);
            Widths(fs) == LOCAL_WIDTHS && (forall i :: 0 <= i < |fs| ==> Classic(fs[i]))
            && LocalInfoOf(Values(fs)) == Some(LocalInfo(crc, size, size, nameLen, 0))
  {
  }

  lemma CentralShape(crc: nat, size: nat, nameLen: nat, unixMode: nat, offset: nat)
    requires crc <= MAX32 && size <= MAX32 && nameLen <= MAX16 && unixMode <= MAX16 && offset <= MAX32
    ensures var fs := CentralHeader(crc, size, nameLen, unixMode, offset);
            Widths(fs) == CENTRAL_WIDTHS && (forall i :: 0 <= i < |fs| ==> Classic(fs[i]))
            && CentralInfoOf(Values(fs)) == Some(CentralInfo(crc, size, size, nameLen, 0, unixMode, offset))
  {
  }

  lemma EocdShape(count: nat, cdSize: nat, cdOffset: nat)
    requires count <= MAX16 && cdSize <= MAX32 && cdOffset <= MAX32
    ensures var fs := Eocd(count, cdSize, cdOffset);
            Widths(fs) == EOCD_WIDTHS && (forall i :: 0 <= i < |fs| ==> Classic(fs[i]))
            && Values(fs) == [EOCD_SIGNATURE, 0, 0, count, count, cdSize, cdOffset, 0]
  {
  }

  /** At `at` stands the local record of `e`, but with `d` for its data. */
  predicate RecordWith(z: Bytes, at: nat, e: Entry, d: Bytes) {
    var h := Encode(LocalFields(e));
    Lands(z, at, h) && Lands(z, at + |h|, e.path) && Lands(z, at + |h| + |e.path|, d)
  }

  /** What the reader makes of a member whose data is `d`. */
  function Judged(e: Entry, d: Bytes): Option<Entry> {
    if Crc32.Checksum(d) == Crc32.Checksum(e.content) then Some(e.(content := d)) else None
  }

  lemma ReadsMemberWith(z: Bytes, off: nat, e: Entry, d: Bytes)
    requires EntryFits(e) && |d| == |e.content| && RecordWith(z, off, e, d)
    ensures ReadMember(z, off, e.path, e.mode, Crc32.Checksum(e.content), |e.content|) == Judged(e, d)
  {
    hide Crc32.Checksum, Encode, ReadFields, Sum, Lands, LocalHeader, LocalInfoOf;
    var fs := LocalFields(e);
    LocalShape(Crc32.Checksum(e.content), |e.content|, |e.path|);
    ReadsRecord(z, off, fs, LOCAL_WIDTHS);
    SliceLanded(z, off + |Encode(fs)|, e.path);
    SliceLanded(z, off + |Encode(fs)| + |e.path|, d);
    MemberWithData(z, off, e, d);
  }

  lemma SliceLanded(z: Bytes, off: nat, r: Bytes)
    requires Lands(z, off, r)
    ensures Slice(z, off, |r|) == Some(r)
  {
    LandsSlice(z, off, r);
  }

  lemma MemberWithData(z: Bytes, off: nat, e: Entry, d: Bytes)
    requires LocalAt(z, off) == Some(LocalInfo(Crc32.Checksum(e.content), |e.content|, |e.content|, |e.path|, 0))
    requires Slice(z, off + Sum(LOCAL_WIDTHS), |e.path|) == Some(e.path)
    requires Slice(z, off + Sum(LOCAL_WIDTHS) + |e.path|, |e.content|) == Some(d)
    ensures ReadMember(z, off, e.path, e.mode, Crc32.Checksum(e.content), |e.content|) == Judged(e, d)
  {
    hide Crc32.Checksum, LocalAt, Sum, Slice;
  }

  lemma CentralWithMember(z: Bytes, off: nat, e: Entry, offset: nat, member: Option<Entry>)
    requires CentralAt(z, off) == Some(CentralInfo(Crc32.Checksum(e.content), |e.content|, |e.content|, |e.path|, 0,
                                                   e.mode.UnixMode(), offset))
    requires Slice(z, off + Sum(CENTRAL_WIDTHS), |e.path|) == Some(e.path)
    requires ReadMember(z, offset, e.path, e.mode, Crc32.Checksum(e.content), |e.content|) == member
    ensures ReadCentral(z, off)
            == match member case Some(m) => Some((m, off + Sum(CENTRAL_WIDTHS) + |e.path|)) case None => None
  {
    hide Crc32.Checksum, CentralAt, Sum, Slice, ReadMember;
  }

  lemma ReadsCentralWith(z: Bytes, off: nat, e: Entry, offset: nat, member: Option<Entry>)
    requires EntryFits(e) && offset <= MAX32 && Lands(z, off, CentralRecord(e, offset))
    requires ReadMember(z, offset, e.path, e.mode, Crc32.Checksum(e.content), |e.content|) == member
    ensures ReadCentral(z, off)
            == match member case Some(m) => Some((m, off + |CentralRecord(e, offset)|)) case None => None
  {
    hide Crc32.Checksum, Encode, ReadFields, Sum, Lands, CentralHeader, ReadMember, ReadCentral, LocalRecord,
         CentralInfoOf;
    var fs := CentralFields(e, offset);
    CentralShape(Crc32.Checksum(e.content), |e.content|, |e.path|, e.mode.UnixMode(), offset);
    LandsSplit(z, off, Encode(fs), e.path);
    ReadsRecord(z, off, fs, CENTRAL_WIDTHS);
    LandsSlice(z, off + |Encode(fs)|, e.path);
    CentralWithMember(z, off, e, offset, member);
  }

  lemma ReadsLocal(z: Bytes, off: nat, e: Entry)
    requires EntryFits(e) && Lands(z, off, LocalRecord(e))
    ensures ReadMember(z, off, e.path, e.mode, Crc32.Checksum(e.content), |e.content|) == Some(e)
  {
    hide Crc32.Checksum, Encode, LocalFields, Lands, ReadMember, EntryFits;
    var h := Encode(LocalFields(e));
    LandsSplit(z, off, h, e.path + e.content);
    LandsSplit(z, off + |h|, e.path, e.content);
    ReadsMemberWith(z, off, e, e.content);
  }

  lemma ReadsCentral(z: Bytes, off: nat, e: Entry, offset: nat)
    requires EntryFits(e) && offset <= MAX32
    requires Lands(z, off, CentralRecord(e, offset)) && Lands(z, offset, LocalRecord(e))
    ensures ReadCentral(z, off) == Some((e, off + |CentralRecord(e, offset)|))
  {
    hide *;
    ReadsLocal(z, offset, e);
    ReadsCentralWith(z, off, e, offset, Some(e));
  }

  /** Every local record stands where the directory says, and every directory record follows
      the one before it. */
  ghost predicate Laid(z: Bytes, base: nat, es: seq<Entry>) {
    && (forall e :: e in es ==> EntryFits(e))
    && (forall j :: 0 <= j < |es| ==> Offset(es, j) <= MAX32 && Lands(z, Offset(es, j), Locals(es)[j]))
    && (forall j :: 0 <= j < |es| ==> Lands(z, base + |Join(Centrals(es), j)|, Centrals(es)[j]))
  }

  lemma ReadsOne(z: Bytes, base: nat, es: seq<Entry>, i: nat)
    requires i < |es| && Laid(z, base, es)
    ensures ReadCentral(z, base + |Join(Centrals(es), i)|) == Some((es[i], base + |Join(Centrals(es), i + 1)|))
  {
    hide LocalRecord, CentralRecord, ReadCentral, Offset, Lands, EntryFits;
    assert es[i] in es;
    assert Centrals(es)[i] == CentralRecord(es[i], Offset(es, i)) && Locals(es)[i] == LocalRecord(es[i]);
    ReadsCentral(z, base + |Join(Centrals(es), i)|, es[i], Offset(es, i));
  }

  lemma {:induction false} ReadsDirectory(z: Bytes, base: nat, es: seq<Entry>, i: nat)
    requires i <= |es| && Laid(z, base, es)
    ensures ReadDirectory(z, base + |Join(Centrals(es), i)|, |es| - i) == Some((es[i..], base + |Central(es)|))
    decreases |es| - i
  {
    hide ReadCentral, Laid, Centrals, Join;
    if i < |es| {
      ReadsOne(z, base, es, i);
      ReadsDirectory(z, base, es, i + 1);
      assert es[i..] == [es[i]] + es[i + 1..];
    } else {
      assert es[i..] == [];
    }
  }

  lemma LandsWhere(pre: Bytes, r: Bytes, post: Bytes)
    ensures Lands(pre + (r + post), 0, pre) && Lands(pre + (r + post), |pre|, r)
    ensures Lands(pre + (r + post), |pre| + |r|, post)
  {
  }

  lemma JoinedLand(z: Bytes, base: nat, rs: seq<Bytes>, j: nat)
    requires j < |rs| && Lands(z, base, Join(rs, |rs|))
    ensures |Join(rs, j)| <= |Join(rs, |rs|)| && Lands(z, base + |Join(rs, j)|, rs[j])
  {
    JoinMonotone(rs, j, |rs|);
    JoinLands(rs, j, |rs|);
    LandsInside(z, base, Join(rs, |rs|), |Join(rs, j)|, rs[j]);
  }

  lemma WriterLays(es: seq<Entry>)
    requires Fits(es)
    ensures Laid(ZipBytes(es), |Body(es)|, es)
    ensures Lands(ZipBytes(es), |Body(es)| + |Central(es)|, Encode(Eocd(|es|, |Central(es)|, |Body(es)|)))
    ensures |ZipBytes(es)| == |Body(es)| + |Central(es)| + |Encode(Eocd(|es|, |Central(es)|, |Body(es)|))|
  {
    hide Locals, Centrals, Encode, Lands, Eocd, EntryFits, Join;
    var z, body, central := ZipBytes(es), Body(es), Central(es);
    LandsWhere(body, central, Encode(Eocd(|es|, |central|, |body|)));
    forall j | 0 <= j < |es| ensures Offset(es, j) <= MAX32 && Lands(z, Offset(es, j), Locals(es)[j]) {
      JoinedLand(z, 0, Locals(es), j);
    }
    forall j | 0 <= j < |es| ensures Lands(z, |body| + |Join(Centrals(es), j)|, Centrals(es)[j]) {
      JoinedLand(z, |body|, Centrals(es), j);
    }
  }

  lemma ReadsEndRecord(z: Bytes, at: nat, count: nat, cdSize: nat, cdOffset: nat)
    requires count <= MAX16 && cdSize <= MAX32 && cdOffset <= MAX32
             && Lands(z, at, Encode(Eocd(count, cdSize, cdOffset)))
    ensures |Encode(Eocd(count, cdSize, cdOffset))| == Sum(EOCD_WIDTHS)
    ensures Record(z, at, EOCD_WIDTHS) == Some([EOCD_SIGNATURE, 0, 0, count, count, cdSize, cdOffset, 0])
  {
    hide *;
    EocdShape(count, cdSize, cdOffset);
    ReadsRecord(z, at, Eocd(count, cdSize, cdOffset), EOCD_WIDTHS);
  }

  lemma SizesFit(es: seq<Entry>)
    requires Fits(es)
    ensures |es| <= MAX16 && |Central(es)| <= MAX32 && |Body(es)| <= MAX32
  {
    hide Central, Body;
  }

  /** The end record stands last and says where the directory is. */
  lemma ReadsEnd(es: seq<Entry>)
    requires Fits(es)
    ensures var z, at := ZipBytes(es), |Body(es)| + |Central(es)|;
            && |z| == at + Sum(EOCD_WIDTHS)
            && Record(z, at, EOCD_WIDTHS) == Some([EOCD_SIGNATURE, 0, 0, |es|, |es|, |Central(es)|, |Body(es)|, 0])
  {
    hide *;
    SizesFit(es);
    WriterLays(es);
    ReadsEndRecord(ZipBytes(es), |Body(es)| + |Central(es)|, |es|, |Central(es)|, |Body(es)|);
  }

  lemma ZipFromParts(z: Bytes, count: nat, cdSize: nat, cdOffset: nat, es: seq<Entry>)
    requires |z| == cdOffset + cdSize + Sum(EOCD_WIDTHS)
    requires Record(z, cdOffset + cdSize, EOCD_WIDTHS)
             == Some([EOCD_SIGNATURE, 0, 0, count, count, cdSize, cdOffset, 0])
    requires ReadDirectory(z, cdOffset, count) == Some((es, cdOffset + cdSize))
    ensures ReadZip(z) == Some(es)
  {
    hide ReadDirectory, ReadFields, Sum;
  }

  lemma NothingJoined(rs: seq<Bytes>)
    ensures Join(rs, 0) == []
  {
  }

  /** Everything the writer produces is read back: members in order, path, mode and content. */
  lemma RoundTrip(es: seq<Entry>)
    requires Fits(es)
    ensures ReadZip(ZipBytes(es)) == Some(es)
  {
    hide *;
    WriterLays(es);
    ReadsEnd(es);
    NothingJoined(Centrals(es));
    ReadsDirectory(ZipBytes(es), |Body(es)|, es, 0);
    assert es[0..] == es;
    ZipFromParts(ZipBytes(es), |es|, |Central(es)|, |Body(es)|, es);
  }

  // ----- canonicity -----

  /** What `IntoZip` returns for the entries added in this order. */
  ghost function Serialized(es: seq<Entry>): Option<Bytes> {
    if Fits(Sort(PathOf, es)) then Some(ZipBytes(Sort(PathOf, es))) else None
  }

  lemma ZipBytesInjective(a: seq<Entry>, b: seq<Entry>)
    requires Fits(a) && Fits(b) && ZipBytes(a) == ZipBytes(b)
    ensures a == b
  {
    hide ZipBytes, ReadZip, Fits;
    RoundTrip(a);
    RoundTrip(b);
  }

  /** A serialised archive gives back the added members sorted by path. */
  lemma ReadsSorted(es: seq<Entry>)
    requires Serialized(es).Some?
    ensures ReadZip(Serialized(es).value) == Some(Sort(PathOf, es))
    ensures multiset(Sort(PathOf, es)) == multiset(es) && Ordered(PathOf, Sort(PathOf, es))
  {
    hide ZipBytes, ReadZip, Fits;
    RoundTrip(Sort(PathOf, es));
    SortIsPermutation(PathOf, es);
    SortIsOrdered(PathOf, es);
  }

  /** With one entry per path, equal bytes mean equal collections, and conversely. */
  lemma SameBytesSameMembers(a: seq<Entry>, b: seq<Entry>)
    requires Serialized(a).Some? && Serialized(b).Some? && Consistent(PathOf, a)
    ensures Serialized(a) == Serialized(b) <==> multiset(a) == multiset(b)
  {
    hide ZipBytes, Fits, Sort;
    if Serialized(a) == Serialized(b) {
      ZipBytesInjective(Sort(PathOf, a), Sort(PathOf, b));
      SortIsPermutation(PathOf, a);
      SortIsPermutation(PathOf, b);
    }
    if multiset(a) == multiset(b) { SortOfPermutation(PathOf, a, b); }
  }

  /** The order in which entries were added never shows, exactly when no two different
      entries share a path: the writer leaves duplicates to its callers. */
  lemma OrderNeverShowsIff(es: seq<Entry>)
    requires Serialized(es).Some?
    ensures (forall p :: multiset(p) == multiset(es) ==> Serialized(p) == Serialized(es)) <==> Consistent(PathOf, es)
  {
    hide ZipBytes, Fits, Sort;
    if Consistent(PathOf, es) {
      forall p | multiset(p) == multiset(es) ensures Serialized(p) == Serialized(es) {
        SortOfPermutation(PathOf, es, p);
      }
    } else {
      var x, y :| x in es && y in es && PathOf(x) == PathOf(y) && x != y;
      var p, q := OrderMatters(PathOf, es, x, y);
      if Serialized(p) == Serialized(es) == Serialized(q) {
        ZipBytesInjective(Sort(PathOf, p), Sort(PathOf, q));
      }
    }
  }

  // ----- the very fields -----

  /** A local header, field by field: version 2.0, no flags, stored, 1980-01-01 00:00:00. */
  function LocalValues(e: Entry): seq<nat> {
    var n := |e.content|;
    [0x0403_4b50, 20, 0, 0, 0x0000, 0x0021, Crc32.Checksum(e.content), n, n, |e.path|, 0]
  }

  /** A central header: made on Unix by version 2.0; file type and permissions in the upper half of the
      external attributes. */
  function CentralValues(e: Entry, offset: nat): seq<nat> {
    var n := |e.content|;
    var mode := match e.mode case File => 0x81A4 case Executable => 0x81ED case Symlink => 0xA1FF;
    [0x0201_4b50, 0x0314, 20, 0, 0, 0x0000, 0x0021, Crc32.Checksum(e.content), n, n, |e.path|, 0, 0, 0, 0,
     mode * 0x1_0000, offset]
  }

  lemma ValuesAre(e: Entry, offset: nat)
    ensures Values(LocalFields(e)) == LocalValues(e) && Values(CentralFields(e, offset)) == CentralValues(e, offset)
  {
    hide Crc32.Checksum;
  }

  /** Every header the writer makes says this, where the reader finds it. */
  lemma HeadersAre(es: seq<Entry>, i: nat)
    requires Fits(es) && i < |es|
    ensures Record(ZipBytes(es), Offset(es, i), LOCAL_WIDTHS) == Some(LocalValues(es[i]))
    ensures Record(ZipBytes(es), |Body(es)| + |Join(Centrals(es), i)|, CENTRAL_WIDTHS)
            == Some(CentralValues(es[i], Offset(es, i)))
  {
    hide *;
    WriterLays(es);
    HeadersLaid(ZipBytes(es), |Body(es)|, es, i);
    FieldsRead(ZipBytes(es), Offset(es, i), |Body(es)| + |Join(Centrals(es), i)|, es[i], Offset(es, i));
  }

  lemma HeadersLaid(z: Bytes, base: nat, es: seq<Entry>, i: nat)
    requires Laid(z, base, es) && i < |es|
    ensures EntryFits(es[i]) && Offset(es, i) <= MAX32
    ensures Lands(z, Offset(es, i), Encode(LocalFields(es[i])) + (es[i].path + es[i].content))
    ensures Lands(z, base + |Join(Centrals(es), i)|, Encode(CentralFields(es[i], Offset(es, i))) + es[i].path)
  {
    hide Offset, Lands, EntryFits, LocalFields, CentralFields, Encode, Join;
    assert es[i] in es;
    assert Centrals(es)[i] == CentralRecord(es[i], Offset(es, i)) && Locals(es)[i] == LocalRecord(es[i]);
  }

  lemma FieldsRead(z: Bytes, at: nat, dirAt: nat, e: Entry, offset: nat)
    requires EntryFits(e) && offset <= MAX32
    requires Lands(z, at, Encode(LocalFields(e)) + (e.path + e.content))
    requires Lands(z, dirAt, Encode(CentralFields(e, offset)) + e.path)
    ensures Record(z, at, LOCAL_WIDTHS) == Some(LocalValues(e))
    ensures Record(z, dirAt, CENTRAL_WIDTHS) == Some(CentralValues(e, offset))
  {
    assert e.mode.UnixMode() <= MAX16 && Crc32.Checksum(e.content) <= MAX32;
    ValuesAre(e, offset);
    LocalShape(Crc32.Checksum(e.content), |e.content|, |e.path|);
    CentralShape(Crc32.Checksum(e.content), |e.content|, |e.path|, e.mode.UnixMode(), offset);
    hide Crc32.Checksum, Encode, Record, Lands, Values, LocalValues, CentralValues, LocalHeader, CentralHeader, Widths;
    LandsSplit(z, at, Encode(LocalFields(e)), e.path + e.content);
    LandsSplit(z, dirAt, Encode(CentralFields(e, offset)), e.path);
    ReadsRecord(z, at, LocalFields(e), LOCAL_WIDTHS);
    ReadsRecord(z, dirAt, CentralFields(e, offset), CENTRAL_WIDTHS);
  }

  // ----- damage -----

  /** Where the data of member `i` starts. */
  function DataAt(es: seq<Entry>, i: nat): nat
    requires i < |es|
  {
    Offset(es, i) + |Encode(LocalFields(es[i]))| + |es[i].path|
  }

  /** `z'` is `z` with `d` written over what stands at `off`. */
  predicate Overwrites(z': Bytes, z: Bytes, off: nat, d: Bytes) {
    && |z'| == |z| && off + |d| <= |z|
    && forall k :: 0 <= k < |z| ==> z'[k] == if off <= k < off + |d| then d[k - off] else z[k]
  }

  lemma StillLands(z': Bytes, z: Bytes, off: nat, d: Bytes, at: nat, r: Bytes)
    requires Overwrites(z', z, off, d) && Lands(z, at, r) && (at + |r| <= off || off + |d| <= at)
    ensures Lands(z', at, r)
  {
  }

  lemma NewDataLands(z': Bytes, z: Bytes, at: nat, h: Bytes, d: Bytes)
    requires Overwrites(z', z, at + |h|, d) && Lands(z, at, h)
    ensures Lands(z', at, h) && Lands(z', at + |h|, d)
  {
  }

  /** The directory of `es` and all local records but that of member `i` stand where they should. */
  ghost predicate OthersLaid(z: Bytes, base: nat, es: seq<Entry>, i: nat) {
    && (forall e :: e in es ==> EntryFits(e))
    && (forall j :: 0 <= j < |es| ==> Offset(es, j) <= MAX32)
    && (forall j :: 0 <= j < |es| && j != i ==> Lands(z, Offset(es, j), Locals(es)[j]))
    && (forall j :: 0 <= j < |es| ==> Lands(z, base + |Join(Centrals(es), j)|, Centrals(es)[j]))
  }

  /** The archive of `es`, except that the data of member `i` is `d`. */
  ghost predicate LaidWith(z: Bytes, base: nat, es: seq<Entry>, i: nat, d: Bytes)
    requires i < |es|
  {
    OthersLaid(z, base, es, i) && RecordWith(z, Offset(es, i), es[i], d)
  }

  lemma RecordsApart(rs: seq<Bytes>, i: nat)
    requires i < |rs|
    ensures |Join(rs, i + 1)| == |Join(rs, i)| + |rs[i]|
    ensures forall j :: 0 <= j < i ==> |Join(rs, j)| + |rs[j]| <= |Join(rs, i)|
    ensures forall j :: i < j <= |rs| ==> |Join(rs, i + 1)| <= |Join(rs, j)|
  {
    forall j | 0 <= j < i ensures |Join(rs, j)| + |rs[j]| <= |Join(rs, i)| { JoinMonotone(rs, j + 1, i); }
    forall j | i < j <= |rs| ensures |Join(rs, i + 1)| <= |Join(rs, j)| { JoinMonotone(rs, i + 1, j); }
  }

  lemma LocalAtIndex(es: seq<Entry>, i: nat)
    requires i < |es|
    ensures Locals(es)[i] == LocalRecord(es[i])
    ensures |Locals(es)[i]| == |Encode(LocalFields(es[i]))| + |es[i].path| + |es[i].content|
  {
    hide LocalFields, Encode;
  }

  /** The data lies inside its record, apart from all other records. */
  lemma DataInside(es: seq<Entry>, i: nat, j: nat)
    requires i < |es| && j < |es|
    ensures DataAt(es, i) + |es[i].content| <= |Body(es)|
    ensures j < i ==> Offset(es, j) + |Locals(es)[j]| <= DataAt(es, i)
    ensures i < j ==> DataAt(es, i) + |es[i].content| <= Offset(es, j)
  {
    RecordsApart(Locals(es), i);
    LocalAtIndex(es, i);
    hide Locals, Join, LocalFields, Encode, LocalRecord;
  }

  lemma OtherRecordLands(z': Bytes, es: seq<Entry>, i: nat, d: Bytes, j: nat)
    requires i < |es| && j < |es| && |d| == |es[i].content| && Overwrites(z', ZipBytes(es), DataAt(es, i), d)
    requires Laid(ZipBytes(es), |Body(es)|, es)
    ensures j != i ==> Lands(z', Offset(es, j), Locals(es)[j])
    ensures Lands(z', |Body(es)| + |Join(Centrals(es), j)|, Centrals(es)[j])
  {
    hide Overwrites, Lands, ZipBytes, Locals, Centrals, Join, EntryFits, DataAt, Offset, Body;
    DataInside(es, i, j);
    var z, off := ZipBytes(es), DataAt(es, i);
    if j != i { StillLands(z', z, off, d, Offset(es, j), Locals(es)[j]); }
    StillLands(z', z, off, d, |Body(es)| + |Join(Centrals(es), j)|, Centrals(es)[j]);
  }

  lemma LaidParts(z: Bytes, base: nat, es: seq<Entry>)
    requires Laid(z, base, es)
    ensures forall e :: e in es ==> EntryFits(e)
    ensures forall j :: 0 <= j < |es| ==> Offset(es, j) <= MAX32 && Lands(z, Offset(es, j), Locals(es)[j])
  {
    hide EntryFits, Offset, Lands, Locals, Join, Centrals;
  }

  lemma OthersStayLaid(z': Bytes, es: seq<Entry>, i: nat, d: Bytes)
    requires Laid(ZipBytes(es), |Body(es)|, es)
    requires i < |es| && |d| == |es[i].content| && Overwrites(z', ZipBytes(es), DataAt(es, i), d)
    ensures OthersLaid(z', |Body(es)|, es, i)
  {
    LaidParts(ZipBytes(es), |Body(es)|, es);
    hide Laid, Overwrites, Lands, ZipBytes, Join, Locals, Centrals, EntryFits, Offset, Body, DataAt;
    forall j | 0 <= j < |es|
      ensures j != i ==> Lands(z', Offset(es, j), Locals(es)[j])
      ensures Lands(z', |Body(es)| + |Join(Centrals(es), j)|, Centrals(es)[j])
    {
      OtherRecordLands(z', es, i, d, j);
    }
  }

  lemma LaidWithIs(z: Bytes, base: nat, es: seq<Entry>, i: nat, d: Bytes)
    requires i < |es|
    ensures LaidWith(z, base, es, i, d) <==> OthersLaid(z, base, es, i) && RecordWith(z, Offset(es, i), es[i], d)
  {
    hide OthersLaid, RecordWith, Offset;
  }

  lemma DataAtIs(es: seq<Entry>, i: nat)
    requires i < |es|
    ensures DataAt(es, i) == Offset(es, i) + |Encode(LocalFields(es[i]))| + |es[i].path|
  {
    hide Encode, LocalFields, Offset;
  }

  lemma DamagedLays(z': Bytes, es: seq<Entry>, i: nat, d: Bytes)
    requires Fits(es) && i < |es| && |d| == |es[i].content| && Overwrites(z', ZipBytes(es), DataAt(es, i), d)
    ensures LaidWith(z', |Body(es)|, es, i, d)
  {
    hide *;
    WriterLays(es);
    OthersStayLaid(z', es, i, d);
    LaidParts(ZipBytes(es), |Body(es)|, es);
    LocalAtIndex(es, i);
    DataAtIs(es, i);
    DamagedRecord(z', ZipBytes(es), es[i], Offset(es, i), d);
    LaidWithIs(z', |Body(es)|, es, i, d);
  }

  lemma DamagedEnds(z': Bytes, es: seq<Entry>, i: nat, d: Bytes)
    requires Fits(es) && i < |es| && |d| == |es[i].content| && Overwrites(z', ZipBytes(es), DataAt(es, i), d)
    ensures Lands(z', |Body(es)| + |Central(es)|, Encode(Eocd(|es|, |Central(es)|, |Body(es)|)))
    ensures |z'| == |Body(es)| + |Central(es)| + |Encode(Eocd(|es|, |Central(es)|, |Body(es)|))|
  {
    assert |z'| == |ZipBytes(es)|;
    hide *;
    WriterLays(es);
    DataInside(es, i, i);
    StillLands(z', ZipBytes(es), DataAt(es, i), d, |Body(es)| + |Central(es)|,
               Encode(Eocd(|es|, |Central(es)|, |Body(es)|)));
  }

  lemma DamagedRecord(z': Bytes, z: Bytes, e: Entry, at: nat, d: Bytes)
    requires Lands(z, at, LocalRecord(e)) && Overwrites(z', z, at + |Encode(LocalFields(e))| + |e.path|, d)
    ensures RecordWith(z', at, e, d)
  {
    hide LocalFields, Encode;
    var h := Encode(LocalFields(e));
    LandsSplit(z, at, h, e.path + e.content);
    LandsSplit(z, at + |h|, e.path, e.content);
    hide Lands, Overwrites;
    StillLands(z', z, at + |h| + |e.path|, d, at, h);
    NewDataLands(z', z, at + |h|, e.path, d);
  }

  lemma LaidWithAt(z: Bytes, base: nat, es: seq<Entry>, i: nat, d: Bytes, j: nat)
    requires i < |es| && j < |es| && LaidWith(z, base, es, i, d)
    ensures EntryFits(es[j]) && Offset(es, j) <= MAX32
    ensures j != i ==> Lands(z, Offset(es, j), LocalRecord(es[j]))
    ensures Lands(z, base + |Join(Centrals(es), j)|, CentralRecord(es[j], Offset(es, j)))
    ensures |Join(Centrals(es), j + 1)| == |Join(Centrals(es), j)| + |CentralRecord(es[j], Offset(es, j))|
  {
    hide LocalRecord, CentralRecord, Offset, Lands, EntryFits, LocalFields, Encode;
    assert es[j] in es;
    assert Centrals(es)[j] == CentralRecord(es[j], Offset(es, j)) && Locals(es)[j] == LocalRecord(es[j]);
  }

  /** One directory record, whether it is the damaged member's or another's. */
  lemma ReadsOneDamaged(z: Bytes, base: nat, es: seq<Entry>, i: nat, d: Bytes, j: nat)
    requires i < |es| && j < |es| && |d| == |es[i].content| && LaidWith(z, base, es, i, d)
    ensures ReadCentral(z, base + |Join(Centrals(es), j)|)
            == match (if j == i then Judged(es[i], d) else Some(es[j]))
               case Some(m) => Some((m, base + |Join(Centrals(es), j + 1)|))
               case None => None
  {
    hide *;
    LaidWithAt(z, base, es, i, d, j);
    var member := if j == i then Judged(es[i], d) else Some(es[j]);
    LaidWithIs(z, base, es, i, d);
    if j == i { ReadsMemberWith(z, Offset(es, i), es[i], d); } else { ReadsLocal(z, Offset(es, j), es[j]); }
    ReadsCentralWith(z, base + |Join(Centrals(es), j)|, es[j], Offset(es, j), member);
  }

  lemma {:induction false} ReadsDamagedDirectory(z: Bytes, base: nat, es: seq<Entry>, i: nat, d: Bytes, k: nat)
    requires i < |es| && k <= |es| && |d| == |es[i].content| && LaidWith(z, base, es, i, d)
    ensures var read := ReadDirectory(z, base + |Join(Centrals(es), k)|, |es| - k);
            read == if k <= i && Judged(es[i], d).None? then None
                    else Some((es[i := es[i].(content := d)][k..], base + |Central(es)|))
    decreases |es| - k
  {
    hide ReadCentral, LaidWith, Centrals, Join, Crc32.Checksum;
    var es' := es[i := es[i].(content := d)];
    if k < |es| {
      ReadsOneDamaged(z, base, es, i, d, k);
      ReadsDamagedDirectory(z, base, es, i, d, k + 1);
      assert es'[k..] == [es'[k]] + es'[k + 1..];
    } else {
      assert es'[k..] == [];
    }
  }

  lemma ZipWithDirectory(z: Bytes, count: nat, cdSize: nat, cdOffset: nat, read: Option<(seq<Entry>, nat)>)
    requires |z| == cdOffset + cdSize + Sum(EOCD_WIDTHS)
    requires Record(z, cdOffset + cdSize, EOCD_WIDTHS)
             == Some([EOCD_SIGNATURE, 0, 0, count, count, cdSize, cdOffset, 0])
    requires ReadDirectory(z, cdOffset, count) == read && (read.Some? ==> read.value.1 == cdOffset + cdSize)
    ensures ReadZip(z) == match read case Some(r) => Some(r.0) case None => None
  {
    hide ReadDirectory, ReadFields, Sum;
  }

  /** Writing over the data of one member of an archive: the reader rejects the whole archive if
      the checksums differ, and otherwise returns the members with that data changed. */
  lemma DamagedArchive(z: Bytes, es: seq<Entry>, i: nat, d: Bytes)
    requires Fits(es) && i < |es| && |d| == |es[i].content| && Overwrites(z, ZipBytes(es), DataAt(es, i), d)
    ensures ReadZip(z) == if Crc32.Of(d) == Crc32.Of(es[i].content) then Some(es[i := es[i].(content := d)]) else None
  {
    hide *;
    SizesFit(es);
    DamagedLays(z, es, i, d);
    DamagedEnds(z, es, i, d);
    ReadsEndRecord(z, |Body(es)| + |Central(es)|, |es|, |Central(es)|, |Body(es)|);
    NothingJoined(Centrals(es));
    ReadsDamagedDirectory(z, |Body(es)|, es, i, d, 0);
    var es' := es[i := es[i].(content := d)];
    assert es'[0..] == es';
    JudgedByCrc(es[i], d);
    ZipWithDirectory(z, |es|, |Central(es)|, |Body(es)|,
                     if Judged(es[i], d).None? then None else Some((es', |Body(es)| + |Central(es)|)));
  }

  lemma JudgedByCrc(e: Entry, d: Bytes)
    ensures Judged(e, d).Some? <==> Crc32.Of(d) == Crc32.Of(e.content)
  {
    hide Crc32.Of;
    assert (Crc32.Of(d) as nat) as bv32 == Crc32.Of(d) && (Crc32.Of(e.content) as nat) as bv32 == Crc32.Of(e.content);
  }

  /** So damage to a member's data within any 32 consecutive bits makes the reader reject the
      archive. */
  lemma DamageIsDetected(z: Bytes, es: seq<Entry>, i: nat, d: Bytes, start: nat)
    requires Fits(es) && i < |es| && |d| == |es[i].content| && d != es[i].content
    requires Overwrites(z, ZipBytes(es), DataAt(es, i), d)
    requires forall k :: 0 <= k < 8 * |d| && !(start <= k < start + 32) ==>
             Crc32.Bits(d)[k] == Crc32.Bits(es[i].content)[k]
    ensures ReadZip(z) == None
  {
    DamagedArchive(z, es, i, d);
    Crc32.BurstDetected(d, es[i].content, start);
    hide *;
  }
}
