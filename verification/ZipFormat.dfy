/** Little-endian records of a ZIP file (PKWARE APPNOTE.TXT sections 4.3.7, 4.3.12 and
    4.3.16): how a record is laid out, and how a reader takes it apart at an offset. */
module ZipFormat {
  import ByteValues

  type Bytes = seq<bv8>

  // ----- little-endian numbers -----

  function Power256(width: nat): (r: nat)
    ensures r > 0
    decreases width
  {
    if width == 0 then 1 else 256 * Power256(width - 1)
  }

  /** The low `width` bytes of `n`, least significant first. */
  function LittleEndian(n: nat, width: nat): (r: Bytes)
    ensures |r| == width
    decreases width
  {
    if width == 0 then [] else [(n % 256) as bv8] + LittleEndian(n / 256, width - 1)
  }

  function FromLittleEndian(s: Bytes): nat
    decreases |s|
  {
    if s == [] then 0 else s[0] as nat + 256 * FromLittleEndian(s[1..])
  }

  lemma {:induction false} LittleEndianRoundTrip(n: nat, width: nat)
    requires n < Power256(width)
    ensures FromLittleEndian(LittleEndian(n, width)) == n
    decreases width
  {
    if width == 0 {
    } else {
      var r := LittleEndian(n, width);
      assert r[1..] == LittleEndian(n / 256, width - 1);
      ByteValues.RoundTrip(n % 256);
      LittleEndianRoundTrip(n / 256, width - 1);
    }
  }

  // ----- records -----

  datatype Field = Field(width: nat, value: nat)

  function F16(v: nat): Field { Field(2, v) }
  function F32(v: nat): Field { Field(4, v) }

  predicate FieldFits(f: Field) { f.value < Power256(f.width) }

  function Encode(fs: seq<Field>): Bytes
    decreases |fs|
  {
    if fs == [] then [] else LittleEndian(fs[0].value, fs[0].width) + Encode(fs[1..])
  }

  function Widths(fs: seq<Field>): (r: seq<nat>)
    ensures |r| == |fs|
  {
    seq(|fs|, i requires 0 <= i < |fs| => fs[i].width)
  }

  function Values(fs: seq<Field>): (r: seq<nat>)
    ensures |r| == |fs|
  {
    seq(|fs|, i requires 0 <= i < |fs| => fs[i].value)
  }

  function Sum(ws: seq<nat>): nat
    decreases |ws|
  {
    if ws == [] then 0 else ws[0] + Sum(ws[1..])
  }

  lemma {:induction false} EncodeLength(fs: seq<Field>)
    ensures |Encode(fs)| == Sum(Widths(fs))
    decreases |fs|
  {
    if fs == [] {
    } else {
      assert Widths(fs)[1..] == Widths(fs[1..]);
      EncodeLength(fs[1..]);
    }
  }

  lemma {:induction false} EncodeConcat(fs: seq<Field>, gs: seq<Field>)
    ensures Encode(fs + gs) == Encode(fs) + Encode(gs)
    decreases |fs|
  {
    if fs == [] {
      assert fs + gs == gs;
    } else {
      assert (fs + gs)[1..] == fs[1..] + gs;
      EncodeConcat(fs[1..], gs);
    }
  }

  /** What a reader sees: the record `r` stands in `z` at offset `off`. */
  predicate Lands(z: Bytes, off: nat, r: Bytes) {
    off + |r| <= |z| && forall i :: 0 <= i < |r| ==> r[i] == z[off + i]
  }

  lemma LandsSlice(z: Bytes, off: nat, r: Bytes)
    requires Lands(z, off, r)
    ensures z[off..off + |r|] == r
  {
  }

  lemma LandsSplit(z: Bytes, off: nat, r: Bytes, t: Bytes)
    requires Lands(z, off, r + t)
    ensures Lands(z, off, r) && Lands(z, off + |r|, t)
  {
    assert forall i :: 0 <= i < |r| ==> r[i] == (r + t)[i];
    forall i | 0 <= i < |t| ensures t[i] == z[off + |r| + i] { assert t[i] == (r + t)[|r| + i]; }
  }

  lemma LandsInside(z: Bytes, off: nat, r: Bytes, i: nat, t: Bytes)
    requires Lands(z, off, r) && Lands(r, i, t)
    ensures Lands(z, off + i, t)
  {
    forall k | 0 <= k < |t| ensures t[k] == z[off + i + k] { assert t[k] == r[i + k]; }
  }

  /** The numbers of a record with the given field widths at offset `off`. */
  function ReadFields(z: Bytes, off: nat, ws: seq<nat>): (r: seq<nat>)
    requires off + Sum(ws) <= |z|
    ensures |r| == |ws|
    decreases |ws|
  {
    if ws == [] then []
    else [FromLittleEndian(z[off..off + ws[0]])] + ReadFields(z, off + ws[0], ws[1..])
  }

  /** Reading a record where it stands gives back the field values. */
  lemma {:induction false} ReadBack(z: Bytes, off: nat, fs: seq<Field>)
    requires (forall f <- fs :: FieldFits(f)) && Lands(z, off, Encode(fs))
    ensures off + Sum(Widths(fs)) <= |z| && ReadFields(z, off, Widths(fs)) == Values(fs)
    decreases |fs|
  {
    EncodeLength(fs);
    if fs == [] {
    } else {
      assert FieldFits(fs[0]);
      LittleEndianRoundTrip(fs[0].value, fs[0].width);
      LandsSplit(z, off, LittleEndian(fs[0].value, fs[0].width), Encode(fs[1..]));
      LandsSlice(z, off, LittleEndian(fs[0].value, fs[0].width));
      ReadBack(z, off + fs[0].width, fs[1..]);
      assert Widths(fs)[1..] == Widths(fs[1..]);
      assert Values(fs) == [fs[0].value] + Values(fs[1..]);
    }
  }

  // ----- consecutive records -----

  /** The first `n` records, one after the other. */
  function Join(rs: seq<Bytes>, n: nat): Bytes
    requires n <= |rs|
    decreases n
  {
    if n == 0 then [] else Join(rs, n - 1) + rs[n - 1]
  }

  lemma {:induction false} JoinMonotone(rs: seq<Bytes>, i: nat, n: nat)
    requires i <= n <= |rs|
    ensures |Join(rs, i)| <= |Join(rs, n)|
    decreases n
  {
    if i == n {
    } else {
      JoinMonotone(rs, i, n - 1);
    }
  }

  /** Each record stands at the total length of those before it. */
  lemma {:induction false} JoinLands(rs: seq<Bytes>, i: nat, n: nat)
    requires i < n <= |rs|
    ensures Lands(Join(rs, n), |Join(rs, i)|, rs[i])
    decreases n
  {
    if i < n - 1 { JoinLands(rs, i, n - 1); }
  }
}
