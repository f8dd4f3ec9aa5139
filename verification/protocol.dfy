/** The status broadcast of main/include/protocol.h and main/protocol.c: a
    32-byte record of twelve fixed-offset big-endian fields, and the setter
    that fills its first four fields.

    The header's table is `Layout`; `EncodeStatus` lays a whole status out
    by that table, and `SetBroadcastFields` is what the implementation
    actually writes (IP, port, RA and DEC: the first 14 bytes). */
module Protocol {
  import opened Bytes

  datatype FieldName =
    | Ip | Port | Ra | Dec | Slewing | Tracking | RaSpeed | DecSpeed
    | SideOfPier | FocuserMaxSteps | FocuserNanosPerStep | FocuserRunning

  /** One `BROADCAST_*` accessor: where it points, how many bytes it reads,
      and whether its pointer type is signed. */
  datatype Field = Field(name: FieldName, offset: nat, width: nat, signed: bool)

  const BroadcastSize: nat := 32

  /** The twelve accessors in header order. */
  const Layout: seq<Field> := [
    Field(Ip, 0, 4, false),
    Field(Port, 4, 2, false),
    Field(Ra, 6, 4, true),
    Field(Dec, 10, 4, true),
    Field(Slewing, 14, 1, false),
    Field(Tracking, 15, 1, false),
    Field(RaSpeed, 16, 4, true),
    Field(DecSpeed, 20, 4, true),
    Field(SideOfPier, 24, 1, false),
    Field(FocuserMaxSteps, 25, 4, false),
    Field(FocuserNanosPerStep, 29, 2, false),
    Field(FocuserRunning, 31, 1, false)
  ]

  /** The four accessors of the implementation file: the same offsets and
      widths, RA and DEC through unsigned pointers. */
  const ImplementedFields: seq<Field> := [
    Field(Ip, 0, 4, false),
    Field(Port, 4, 2, false),
    Field(Ra, 6, 4, false),
    Field(Dec, 10, 4, false)
  ]

  /** The value the implementation stores in the record's `size`. */
  const WrittenSize: nat := 14

  function End(f: Field): nat { f.offset + f.width }

  /** Each field starts where the previous one ends, from `start`. */
  predicate Contiguous(fs: seq<Field>, start: nat)
  {
    && (|fs| > 0 ==> fs[0].offset == start)
    && forall i :: 0 <= i < |fs| - 1 ==> End(fs[i]) == fs[i + 1].offset
  }

  /** The end of the last field, or `start` for no fields. */
  function LastEnd(fs: seq<Field>, start: nat): nat
  {
    if |fs| == 0 then start else End(fs[|fs| - 1])
  }

  /** The header's table is contiguous from 0, ends at `BROADCAST_SIZE`,
      and every field has a positive width. */
  lemma LayoutShape()
    ensures |Layout| == 12
    ensures Contiguous(Layout, 0)
    ensures LastEnd(Layout, 0) == BroadcastSize
    ensures forall i :: 0 <= i < |Layout| ==> Layout[i].width > 0
  {
  }

  /** In a contiguous table with positive widths, a later field starts no
      earlier than an earlier one ends. */
  lemma {:induction false} ContiguousOrdered(fs: seq<Field>, start: nat, i: int, j: int)
    requires Contiguous(fs, start)
    requires forall k :: 0 <= k < |fs| ==> fs[k].width > 0
    requires 0 <= i < j < |fs|
    ensures End(fs[i]) <= fs[j].offset
    decreases j - i
  {
    if j > i + 1 {
      ContiguousOrdered(fs, start, i, j - 1);
    }
  }

  /** In a contiguous table every field lies within [start, LastEnd). */
  lemma {:induction false} ContiguousWithin(fs: seq<Field>, start: nat, i: int)
    requires Contiguous(fs, start)
    requires forall k :: 0 <= k < |fs| ==> fs[k].width > 0
    requires 0 <= i < |fs|
    ensures start <= fs[i].offset && End(fs[i]) <= LastEnd(fs, start)
  {
    if i > 0 {
      ContiguousOrdered(fs, start, 0, i);
    }
    if i < |fs| - 1 {
      ContiguousOrdered(fs, start, i, |fs| - 1);
    }
  }

  /** The twelve fields are pairwise disjoint and all lie in the record. */
  lemma FieldsDisjoint(i: int, j: int)
    requires 0 <= i < |Layout| && 0 <= j < |Layout| && i != j
    ensures End(Layout[i]) <= Layout[j].offset || End(Layout[j]) <= Layout[i].offset
    ensures End(Layout[i]) <= BroadcastSize
  {
    LayoutShape();
    if i < j {
      ContiguousOrdered(Layout, 0, i, j);
    } else {
      ContiguousOrdered(Layout, 0, j, i);
    }
    ContiguousWithin(Layout, 0, i);
  }

  /** Every byte of the record belongs to some field (and, by
      `FieldsDisjoint`, to only one). */
  lemma FieldsCover(b: nat)
    requires b < BroadcastSize
    ensures exists i :: 0 <= i < |Layout| && Layout[i].offset <= b < End(Layout[i])
  {
    var i := 0;
    while End(Layout[i]) <= b
      invariant 0 <= i < |Layout| && Layout[i].offset <= b
      decreases |Layout| - i
    {
      i := i + 1;
    }
  }

  /** The implementation's four fields sit where the header puts the first
      four, and together fill exactly the 14 bytes it reports. */
  lemma ImplementedIsPrefix()
    ensures |ImplementedFields| == 4
    ensures forall k :: 0 <= k < 4 ==>
              ImplementedFields[k].name == Layout[k].name
              && ImplementedFields[k].offset == Layout[k].offset
              && ImplementedFields[k].width == Layout[k].width
    ensures Contiguous(ImplementedFields, 0) && LastEnd(ImplementedFields, 0) == WrittenSize
  {
  }

  /** `side_of_pier` values. */
  const SideNormal: byte := 0
  const SideBeyondPole: byte := 1

  /** The arguments of the header's thirteen-argument setter (the record
      itself aside). */
  datatype Status = Status(
    ip: nat, port: nat, ra: int, dec: int,
    slewing: bool, tracking: bool,
    raSpeed: int, decSpeed: int,
    sideOfPier: byte,
    focuserMaxSteps: nat, focuserNanosPerStep: nat, focuserRunning: bool)

  function BoolValue(b: bool): int { if b then 1 else 0 }

  /** The value a field carries. */
  function FieldValue(s: Status, name: FieldName): int
  {
    match name
    case Ip => s.ip
    case Port => s.port
    case Ra => s.ra
    case Dec => s.dec
    case Slewing => BoolValue(s.slewing)
    case Tracking => BoolValue(s.tracking)
    case RaSpeed => s.raSpeed
    case DecSpeed => s.decSpeed
    case SideOfPier => s.sideOfPier as int
    case FocuserMaxSteps => s.focuserMaxSteps
    case FocuserNanosPerStep => s.focuserNanosPerStep
    case FocuserRunning => BoolValue(s.focuserRunning)
  }

  /** A value fits a field of the given width and signedness. */
  predicate Fits(v: int, width: nat, signed: bool)
  {
    if signed then width >= 1 && -Pow256(width) / 2 <= v < Pow256(width) / 2
    else 0 <= v < Pow256(width)
  }

  /** Every argument within its C type. */
  predicate ValidStatus(s: Status)
  {
    AllFit(s, Layout)
  }

  /** The big-endian bytes of one field: the low bytes a store through a
      pointer of the field's width keeps (for a value that fits, its
      two's-complement or unsigned encoding). */
  function FieldBytes(s: Status, f: Field): (bs: seq<byte>)
    ensures |bs| == f.width
  {
    LowBytes(FieldValue(s, f.name), f.width)
  }

  predicate AllFit(s: Status, fs: seq<Field>)
  {
    forall k :: 0 <= k < |fs| ==> Fits(FieldValue(s, fs[k].name), fs[k].width, fs[k].signed)
  }

  function Width(fs: seq<Field>): nat
  {
    if |fs| == 0 then 0 else fs[0].width + Width(fs[1..])
  }

  /** The fields laid out one after another. */
  function EncodeFields(s: Status, fs: seq<Field>): (bs: seq<byte>)
    ensures |bs| == Width(fs)
  {
    if |fs| == 0 then [] else FieldBytes(s, fs[0]) + EncodeFields(s, fs[1..])
  }

  /** The whole record. */
  function EncodeStatus(s: Status): (bs: seq<byte>)
  {
    EncodeFields(s, Layout)
  }

  /** Dropping the first field of a contiguous run leaves a contiguous run
      from its end, with the same last end. */
  lemma ContiguousTail(fs: seq<Field>, start: nat)
    requires Contiguous(fs, start) && |fs| > 0
    ensures Contiguous(fs[1..], End(fs[0]))
    ensures LastEnd(fs[1..], End(fs[0])) == LastEnd(fs, start)
  {
    var tail := fs[1..];
    forall i | 0 <= i < |tail| - 1
      ensures End(tail[i]) == tail[i + 1].offset
    {
      assert tail[i] == fs[i + 1] && tail[i + 1] == fs[i + 2];
    }
  }

  /** A contiguous run of fields from `start` is `LastEnd - start` bytes
      wide. */
  lemma {:induction false} ContiguousWidth(fs: seq<Field>, start: nat)
    requires Contiguous(fs, start)
    ensures start <= LastEnd(fs, start)
    ensures Width(fs) == LastEnd(fs, start) - start
    decreases |fs|
  {
    if |fs| > 0 {
      ContiguousTail(fs, start);
      ContiguousWidth(fs[1..], End(fs[0]));
    }
  }

  /** In a contiguous run of fields from `start`, field `k` is encoded at
      `offset - start`. */
  lemma {:induction false} EncodeFieldsAt(s: Status, fs: seq<Field>, start: nat, k: int)
    requires Contiguous(fs, start) && 0 <= k < |fs|
    ensures start <= fs[k].offset
    ensures fs[k].offset - start + fs[k].width <= |EncodeFields(s, fs)|
    ensures EncodeFields(s, fs)[fs[k].offset - start .. fs[k].offset - start + fs[k].width]
            == FieldBytes(s, fs[k])
    decreases |fs|
  {
    var head := FieldBytes(s, fs[0]);
    var tail := fs[1..];
    ContiguousTail(fs, start);
    var rest := EncodeFields(s, tail);
    assert EncodeFields(s, fs) == head + rest;
    var o, w := fs[k].offset - start, fs[k].width;
    if k == 0 {
      assert o == 0 && w == |head|;
      SliceOfAppendHead(head, rest);
    } else {
      EncodeFieldsAt(s, tail, End(fs[0]), k - 1);
      assert tail[k - 1] == fs[k];
      var o' := fs[k].offset - End(fs[0]);
      assert o' == o - |head|;
      assert rest[o' .. o' + w] == FieldBytes(s, fs[k]);
      SliceOfAppendTail(head, rest, o, o + w);
      assert (head + rest)[o .. o + w] == rest[o' .. o' + w];
    }
    assert (head + rest)[o .. o + w] == FieldBytes(s, fs[k]);
    assert EncodeFields(s, fs)[o .. o + w] == (head + rest)[o .. o + w];
  }

  lemma SliceOfAppendHead(a: seq<byte>, b: seq<byte>)
    ensures (a + b)[0..|a|] == a
  {
  }

  lemma SliceOfAppendTail(a: seq<byte>, b: seq<byte>, lo: int, hi: int)
    requires |a| <= lo <= hi <= |a| + |b|
    ensures (a + b)[lo..hi] == b[lo - |a| .. hi - |a|]
  {
  }

  /** The record is `BROADCAST_SIZE` bytes long. */
  lemma RecordSize(s: Status)
    ensures |EncodeStatus(s)| == BroadcastSize
  {
    assert Contiguous(Layout, 0) && LastEnd(Layout, 0) == BroadcastSize by {
      LayoutShape();
    }
    ContiguousWidth(Layout, 0);
  }

  /** Field `k` of the record sits at its header offset. */
  lemma FieldAtOffset(s: Status, k: int)
    requires 0 <= k < |Layout|
    ensures End(Layout[k]) <= |EncodeStatus(s)|
    ensures EncodeStatus(s)[Layout[k].offset .. End(Layout[k])] == FieldBytes(s, Layout[k])
  {
    assert Contiguous(Layout, 0) by {
      LayoutShape();
    }
    EncodedAt(s, Layout, k);
  }

  /** `EncodeFieldsAt` for a run starting at 0: offsets are positions. */
  lemma EncodedAt(s: Status, fs: seq<Field>, k: int)
    requires Contiguous(fs, 0) && 0 <= k < |fs|
    ensures End(fs[k]) <= |EncodeFields(s, fs)|
    ensures EncodeFields(s, fs)[fs[k].offset .. End(fs[k])] == FieldBytes(s, fs[k])
  {
    EncodeFieldsAt(s, fs, 0, k);
  }

  /** Read one field of a 32-byte record. */
  function ReadField(bs: seq<byte>, f: Field): int
    requires End(f) <= |bs| && f.width >= 1
  {
    var slice := bs[f.offset .. End(f)];
    if f.signed then BeSigned(slice) else BeUnsigned(slice)
  }

  /** A status read back from a record, field by field; a boolean is any
      non-zero byte. */
  function DecodeStatus(bs: seq<byte>): Status
    requires |bs| == BroadcastSize
  {
    Status(
      ReadField(bs, Layout[0]), ReadField(bs, Layout[1]),
      ReadField(bs, Layout[2]), ReadField(bs, Layout[3]),
      ReadField(bs, Layout[4]) != 0, ReadField(bs, Layout[5]) != 0,
      ReadField(bs, Layout[6]), ReadField(bs, Layout[7]),
      ReadField(bs, Layout[8]) as byte,
      ReadField(bs, Layout[9]), ReadField(bs, Layout[10]),
      ReadField(bs, Layout[11]) != 0)
  }

  /** Reading one field back from the record gives its value. */
  lemma ReadFieldBack(s: Status, k: int)
    requires ValidStatus(s) && 0 <= k < |Layout|
    ensures |EncodeStatus(s)| == BroadcastSize
    ensures 1 <= Layout[k].width && End(Layout[k]) <= BroadcastSize
    ensures ReadField(EncodeStatus(s), Layout[k]) == FieldValue(s, Layout[k].name)
  {
    RecordSize(s);
    FieldAtOffset(s, k);
    LayoutShape();
    var f := Layout[k];
    var v := FieldValue(s, f.name);
    assert Fits(v, f.width, f.signed);
    if f.signed {
      LowBytesSigned(v, f.width);
      DecodeEncodeSigned(v, f.width);
    } else {
      LowBytesUnsigned(v, f.width);
      DecodeEncodeUnsigned(v, f.width);
    }
  }

  /** Decoding an encoded record gives the status back. */
  lemma StatusRoundTrip(s: Status)
    requires ValidStatus(s)
    ensures |EncodeStatus(s)| == BroadcastSize
    ensures DecodeStatus(EncodeStatus(s)) == s
  {
    RecordSize(s);
    ReadFieldBack(s, 0);
    ReadFieldBack(s, 1);
    ReadFieldBack(s, 2);
    ReadFieldBack(s, 3);
    ReadFieldBack(s, 4);
    ReadFieldBack(s, 5);
    ReadFieldBack(s, 6);
    ReadFieldBack(s, 7);
    ReadFieldBack(s, 8);
    ReadFieldBack(s, 9);
    ReadFieldBack(s, 10);
    ReadFieldBack(s, 11);
  }

  /** `set_broadcast_fields` as implemented: IP and port big-endian
      unsigned, RA and DEC big-endian (an `int32_t` through `htonl` is its
      two's-complement pattern); nothing past byte 13 is touched. Returns the
      record and the size it reports. */
  function SetBroadcastFields(buf: seq<byte>, ip: nat, port: nat, ra: int, dec: int): (r: (seq<byte>, nat))
    requires |buf| == BroadcastSize
    requires ip < Pow256(4) && port < Pow256(2)
    requires -Pow256(4) / 2 <= ra < Pow256(4) / 2 && -Pow256(4) / 2 <= dec < Pow256(4) / 2
    ensures |r.0| == BroadcastSize && r.1 == WrittenSize
    ensures r.0[WrittenSize..] == buf[WrittenSize..]
    ensures BeUnsigned(r.0[0..4]) == ip && BeUnsigned(r.0[4..6]) == port
    ensures BeSigned(r.0[6..10]) == ra && BeSigned(r.0[10..14]) == dec
  {
    var bs := ToBeUnsigned(ip, 4) + ToBeUnsigned(port, 2) + ToBeSigned(ra, 4) + ToBeSigned(dec, 4)
              + buf[WrittenSize..];
    assert bs[0..4] == ToBeUnsigned(ip, 4);
    assert bs[4..6] == ToBeUnsigned(port, 2);
    assert bs[6..10] == ToBeSigned(ra, 4);
    assert bs[10..14] == ToBeSigned(dec, 4);
    DecodeEncodeUnsigned(ip, 4);
    DecodeEncodeUnsigned(port, 2);
    DecodeEncodeSigned(ra, 4);
    DecodeEncodeSigned(dec, 4);
    (bs, WrittenSize)
  }

  /** What the implementation writes agrees with the header's layout: on
      any buffer, the first 14 bytes come out as in the full record of a
      status with the same four values, and the rest of the buffer stays. */
  lemma SetterMatchesLayout(buf: seq<byte>, s: Status)
    requires |buf| == BroadcastSize && ValidStatus(s)
    ensures LayoutFitsSetter(s)
    ensures var r := SetBroadcastFields(buf, s.ip, s.port, s.ra, s.dec).0;
            r[..WrittenSize] == EncodeStatus(s)[..WrittenSize]
            && r[WrittenSize..] == buf[WrittenSize..]
  {
    RecordPrefix(s);
    SetterBytes(buf, s.ip, s.port, s.ra, s.dec);
    SameFirstFields(SetBroadcastFields(buf, s.ip, s.port, s.ra, s.dec).0, EncodeStatus(s));
  }

  /** The first four fields of the record, spelled out. */
  lemma RecordPrefix(s: Status)
    requires ValidStatus(s)
    ensures LayoutFitsSetter(s)
    ensures |EncodeStatus(s)| == BroadcastSize
    ensures var e := EncodeStatus(s);
            && e[0..4] == ToBeUnsigned(s.ip, 4) && e[4..6] == ToBeUnsigned(s.port, 2)
            && e[6..10] == ToBeSigned(s.ra, 4) && e[10..14] == ToBeSigned(s.dec, 4)
  {
    LayoutFitsSetterHolds(s);
    RecordSize(s);
    var e := EncodeStatus(s);
    assert e[0..4] == ToBeUnsigned(s.ip, 4) by {
      FieldAtOffset(s, 0);
      LowBytesUnsigned(s.ip, 4);
    }
    assert e[4..6] == ToBeUnsigned(s.port, 2) by {
      FieldAtOffset(s, 1);
      LowBytesUnsigned(s.port, 2);
    }
    assert e[6..10] == ToBeSigned(s.ra, 4) by {
      FieldAtOffset(s, 2);
      LowBytesSigned(s.ra, 4);
    }
    assert e[10..14] == ToBeSigned(s.dec, 4) by {
      FieldAtOffset(s, 3);
      LowBytesSigned(s.dec, 4);
    }
  }

  /** Two records that agree on each of the first four fields agree on
      their first 14 bytes. */
  lemma SameFirstFields(a: seq<byte>, b: seq<byte>)
    requires |a| == BroadcastSize && |b| == BroadcastSize
    requires a[0..4] == b[0..4] && a[4..6] == b[4..6] && a[6..10] == b[6..10] && a[10..14] == b[10..14]
    ensures a[..WrittenSize] == b[..WrittenSize]
  {
    assert a[..WrittenSize] == a[0..4] + a[4..6] + a[6..10] + a[10..14];
    assert b[..WrittenSize] == b[0..4] + b[4..6] + b[6..10] + b[10..14];
  }

  /** The setter's bytes, field by field. */
  lemma SetterBytes(buf: seq<byte>, ip: nat, port: nat, ra: int, dec: int)
    requires |buf| == BroadcastSize
    requires ip < Pow256(4) && port < Pow256(2)
    requires -Pow256(4) / 2 <= ra < Pow256(4) / 2 && -Pow256(4) / 2 <= dec < Pow256(4) / 2
    ensures var r := SetBroadcastFields(buf, ip, port, ra, dec).0;
            && r[0..4] == ToBeUnsigned(ip, 4) && r[4..6] == ToBeUnsigned(port, 2)
            && r[6..10] == ToBeSigned(ra, 4) && r[10..14] == ToBeSigned(dec, 4)
  {
    var bs := ToBeUnsigned(ip, 4) + ToBeUnsigned(port, 2) + ToBeSigned(ra, 4) + ToBeSigned(dec, 4)
              + buf[WrittenSize..];
    assert SetBroadcastFields(buf, ip, port, ra, dec).0 == bs;
    assert bs[0..4] == ToBeUnsigned(ip, 4);
    assert bs[4..6] == ToBeUnsigned(port, 2);
    assert bs[6..10] == ToBeSigned(ra, 4);
    assert bs[10..14] == ToBeSigned(dec, 4);
  }

  /** The setter's preconditions hold for the first four fields of a valid
      status. */
  predicate LayoutFitsSetter(s: Status)
  {
    s.ip < Pow256(4) && s.port < Pow256(2)
    && -Pow256(4) / 2 <= s.ra < Pow256(4) / 2 && -Pow256(4) / 2 <= s.dec < Pow256(4) / 2
  }

  lemma LayoutFitsSetterHolds(s: Status)
    requires ValidStatus(s)
    ensures LayoutFitsSetter(s)
  {
    assert Fits(FieldValue(s, Layout[0].name), Layout[0].width, Layout[0].signed);
    assert Fits(FieldValue(s, Layout[1].name), Layout[1].width, Layout[1].signed);
    assert Fits(FieldValue(s, Layout[2].name), Layout[2].width, Layout[2].signed);
    assert Fits(FieldValue(s, Layout[3].name), Layout[3].width, Layout[3].signed);
  }
}
