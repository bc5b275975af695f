/**
 * Filling and reading the record buffer through a set of bindings: the
 * sample rows written by `InsertEmployeeInfo`, the seek key, and the
 * edited fields written by `SaveEmployeeInfo`.
 */
module Record {
  import opened Bytes
  import opened OleDb

  function Min(a: int, b: int): int {
    if a <= b then a else b
  }

  /**
   * The characters of `s` that fit in a text value part of `cbMaxLen` bytes
   * together with a terminator: at most `cbMaxLen / 2 - 1` of them.
   */
  function StoredText(s: seq<WChar>, cbMaxLen: nat): (t: seq<WChar>)
    requires cbMaxLen >= 2
    ensures |t| == Min(|s|, cbMaxLen / 2 - 1) && t == s[..|t|]
    ensures 2 * (|t| + 1) <= cbMaxLen
  {
    s[..Min(|s|, cbMaxLen / 2 - 1)]
  }

  /**
   * The wide string at `off`: the characters up to the first terminator
   * (what `wcslen` counts and `wcscpy` copies), reading at most `limit`
   * characters.
   */
  function ReadChars(img: seq<Byte>, off: nat, limit: nat): (t: seq<WChar>)
    requires off + 2 * limit <= |img|
    ensures |t| <= limit && NoNul(t)
    decreases limit
  {
    if limit == 0 then []
    else
      var c: WChar := img[off] as int + 256 * (img[off + 1] as int);
      if c == NUL then [] else [c] + ReadChars(img, off + 2, limit - 1)
  }

  /** The wide string in the value part of `b`, read no further than the value part. */
  function ReadText(img: seq<Byte>, b: Binding): (t: seq<WChar>)
    requires b.End() <= |img|
    ensures NoNul(t) && |t| <= b.cbMaxLen / 2
  {
    ReadChars(img, b.obValue, b.cbMaxLen / 2)
  }

  /** The value of the 4-byte field at `off`. */
  function ReadU32(img: seq<Byte>, off: nat): (v: int)
    requires off + 4 <= |img|
  {
    DecodeU32(img[off..off + 4])
  }

  /** The byte range that binding `b` owns: its length, status and value parts. */
  predicate InSlot(b: Binding, p: int) {
    b.obLength <= p < b.End()
  }

  /** The length part of `b` set to `len` and its status part to `DBSTATUS_S_OK`. */
  function WriteLength(img: seq<Byte>, b: Binding, len: int, plat: Platform): (r: seq<Byte>)
    requires SlotsInOrder(b) && b.End() <= |img|
    ensures |r| == |img| && forall p :: 0 <= p < |img| && !InSlot(b, p) ==> r[p] == img[p]
  {
    Splice(Splice(img, b.obLength, U32LE(len)), b.obStatus, U32LE(plat.statusOk))
  }

  /**
   * The length and status parts of a text column set from its value part:
   * `wcslen` of the value part times two, then `DBSTATUS_S_OK`.
   */
  function WriteMeasure(img: seq<Byte>, b: Binding, plat: Platform): (r: seq<Byte>)
    requires SlotsInOrder(b) && b.End() <= |img|
    ensures |r| == |img| && forall p :: 0 <= p < |img| && !InSlot(b, p) ==> r[p] == img[p]
  {
    WriteLength(img, b, 2 * |ReadText(img, b)|, plat)
  }

  /**
   * A text column written into `img`: the stored prefix and a terminator in
   * the value part, then the length and status parts set from it.
   */
  function WriteText(img: seq<Byte>, b: Binding, s: seq<WChar>, plat: Platform): (r: seq<Byte>)
    requires SlotsInOrder(b) && b.End() <= |img| && b.cbMaxLen >= 2
    ensures |r| == |img| && forall p :: 0 <= p < |img| && !InSlot(b, p) ==> r[p] == img[p]
  {
    WriteMeasure(Splice(img, b.obValue, EncodeW(StoredText(s, b.cbMaxLen) + [NUL])), b, plat)
  }

  /** A 4-byte integer column written into `img`: the value, the length 4, then `DBSTATUS_S_OK`. */
  function WriteInt(img: seq<Byte>, b: Binding, v: int, plat: Platform): (r: seq<Byte>)
    requires SlotsInOrder(b) && b.End() <= |img| && b.cbMaxLen >= 4
    ensures |r| == |img| && forall p :: 0 <= p < |img| && !InSlot(b, p) ==> r[p] == img[p]
  {
    var valued := Splice(img, b.obValue, U32LE(v));
    var measured := Splice(valued, b.obLength, U32LE(4));
    Splice(measured, b.obStatus, U32LE(plat.statusOk))
  }

  /**
   * One column of a sample row written by `InsertEmployeeInfo`: text and
   * 4-byte integer columns are set, every other column (the photo bound as
   * an object, among them) is left as it was.
   */
  function WriteColumn(img: seq<Byte>, b: Binding, s: seq<WChar>, plat: Platform, parse: seq<WChar> -> int): (r: seq<Byte>)
    requires SlotsInOrder(b) && b.End() <= |img|
    requires b.wType == plat.typeWStr ==> b.cbMaxLen >= 2
    requires b.wType == plat.typeI4 ==> b.cbMaxLen >= 4
    ensures |r| == |img| && forall p :: 0 <= p < |img| && !InSlot(b, p) ==> r[p] == img[p]
  {
    if b.wType == plat.typeWStr then WriteText(img, b, s, plat)
    else if b.wType == plat.typeI4 then WriteInt(img, b, parse(s), plat)
    else img
  }

  /** The buffer after it is zeroed and the first `n` columns of `row` are written. */
  function FillColumns(size: nat, bindings: seq<Binding>, row: seq<seq<WChar>>, n: nat,
                       plat: Platform, parse: seq<WChar> -> int): (r: seq<Byte>)
    requires WellFormed(bindings, size, plat) && n <= |bindings| <= |row|
    ensures |r| == size
  {
    if n == 0 then Zeros(size)
    else WriteColumn(FillColumns(size, bindings, row, n - 1, plat, parse), bindings[n - 1], row[n - 1], plat, parse)
  }

  /** The record buffer holding one sample row, ready for `InsertRow`. */
  function RowImage(size: nat, bindings: seq<Binding>, row: seq<seq<WChar>>,
                    plat: Platform, parse: seq<WChar> -> int): (r: seq<Byte>)
    requires WellFormed(bindings, size, plat) && |bindings| <= |row|
    ensures |r| == size
  {
    FillColumns(size, bindings, row, |bindings|, plat, parse)
  }

  /**
   * Copies a string into a text value part: `wcsncpy` of the first
   * `cbMaxLen / 2 - 1` characters and an explicit terminator when the string
   * is that long or longer, `wcscpy` otherwise.
   */
  method CopyText(data: array<Byte>, b: Binding, info: seq<WChar>)
    requires SlotsInOrder(b) && b.End() <= data.Length && b.cbMaxLen >= 2
    modifies data
    ensures data[..] == Splice(old(data[..]), b.obValue, EncodeW(StoredText(info, b.cbMaxLen) + [NUL]))
  {
    var infoSize := b.cbMaxLen / 2 - 1;
    ghost var before := data[..];
    if |info| >= infoSize {
      WriteBytes(data, b.obValue, EncodeW(info[..infoSize]));
      WriteBytes(data, b.obValue + 2 * infoSize, EncodeW([NUL]));
      SpliceAdjacent(before, b.obValue, EncodeW(info[..infoSize]), EncodeW([NUL]));
      EncodeWAppend(info[..infoSize], [NUL]);
      assert StoredText(info, b.cbMaxLen) == info[..infoSize];
    } else {
      WriteBytes(data, b.obValue, EncodeW(info + [NUL]));
      assert StoredText(info, b.cbMaxLen) == info;
    }
  }

  /** Sets the length part of a text column from `wcslen` of its value part, and an OK status. */
  method MeasureField(data: array<Byte>, b: Binding, plat: Platform)
    requires SlotsInOrder(b) && b.End() <= data.Length
    modifies data
    ensures data[..] == WriteMeasure(old(data[..]), b, plat)
  {
    WriteBytes(data, b.obLength, U32LE(2 * |ReadText(data[..], b)|));
    WriteBytes(data, b.obStatus, U32LE(plat.statusOk));
  }

  /** Stores a text column (the `DBTYPE_WSTR` case of the row fill). */
  method StoreText(data: array<Byte>, b: Binding, info: seq<WChar>, plat: Platform)
    requires SlotsInOrder(b) && b.End() <= data.Length && b.cbMaxLen >= 2
    modifies data
    ensures data[..] == WriteText(old(data[..]), b, info, plat)
  {
    CopyText(data, b, info);
    MeasureField(data, b, plat);
  }

  /** Stores a 4-byte integer column (the `DBTYPE_I4` case of the row fill). */
  method StoreInt(data: array<Byte>, b: Binding, v: int, plat: Platform)
    requires SlotsInOrder(b) && b.End() <= data.Length && b.cbMaxLen >= 4
    modifies data
    ensures data[..] == WriteInt(old(data[..]), b, v, plat)
  {
    WriteBytes(data, b.obValue, U32LE(v));
    WriteBytes(data, b.obLength, U32LE(4));
    WriteBytes(data, b.obStatus, U32LE(plat.statusOk));
  }

  /**
   * The row fill of `InsertEmployeeInfo` for one sample row: the buffer is
   * zeroed, then each text column gets the row's string, truncated to the
   * value part and terminated, with its byte length and an OK status, and
   * each 4-byte integer column gets `parse` of the row's string (the model
   * of `_wtoi`), the length 4 and an OK status.
   */
  method FillRecord(data: array<Byte>, bindings: seq<Binding>, row: seq<seq<WChar>>,
                    plat: Platform, parse: seq<WChar> -> int)
    requires WellFormed(bindings, data.Length, plat) && |bindings| <= |row|
    modifies data
    ensures data[..] == RowImage(data.Length, bindings, row, plat, parse)
  {
    forall p | 0 <= p < data.Length {
      data[p] := 0;
    }
    assert data[..] == Zeros(data.Length);
    var col := 0;
    while col < |bindings|
      invariant 0 <= col <= |bindings|
      invariant data[..] == FillColumns(data.Length, bindings, row, col, plat, parse)
    {
      var b := bindings[col];
      if b.wType == plat.typeWStr {
        StoreText(data, b, row[col], plat);
      } else if b.wType == plat.typeI4 {
        StoreInt(data, b, parse(row[col]), plat);
      }
      col := col + 1;
    }
  }

  /** Bytes holding a string and its terminator read back as that string. */
  lemma {:induction false} ReadCharsStored(img: seq<Byte>, off: nat, limit: nat, t: seq<WChar>)
    requires off + 2 * limit <= |img| && NoNul(t) && |t| < limit
    requires img[off..off + 2 * (|t| + 1)] == EncodeW(t + [NUL])
    ensures ReadChars(img, off, limit) == t
    decreases |t|
  {
    var s := t + [NUL];
    EncodedHead(img, off, s);
    if t != [] {
      assert s[0] == t[0] && s[1..] == t[1..] + [NUL];
      ReadCharsStored(img, off + 2, limit - 1, t[1..]);
      assert [t[0]] + t[1..] == t;
    }
  }

  /** The first two bytes of an encoded string are its first character, and the rest encode the rest. */
  lemma EncodedHead(img: seq<Byte>, off: nat, s: seq<WChar>)
    requires s != [] && off + 2 * |s| <= |img| && img[off..off + 2 * |s|] == EncodeW(s)
    ensures img[off] as int + 256 * (img[off + 1] as int) == s[0]
    ensures img[off + 2..off + 2 * |s|] == EncodeW(s[1..])
  {
    var e := EncodeW(s);
    assert e == WCharLE(s[0]) + EncodeW(s[1..]);
    assert img[off] == e[0] && img[off + 1] == e[1];
    assert img[off + 2..off + 2 * |s|] == e[2..];
  }

  /** `wcslen` of a value part looks at the bytes of that value part only. */
  lemma {:induction false} ReadCharsAgree(x: seq<Byte>, y: seq<Byte>, off: nat, limit: nat)
    requires off + 2 * limit <= |x| == |y|
    requires forall p :: off <= p < off + 2 * limit ==> x[p] == y[p]
    ensures ReadChars(x, off, limit) == ReadChars(y, off, limit)
    decreases limit
  {
    if limit > 0 {
      assert x[off] == y[off] && x[off + 1] == y[off + 1];
      ReadCharsAgree(x, y, off + 2, limit - 1);
    }
  }

  /** The text of a column depends only on the bytes of its slot. */
  lemma ReadTextOnlyReadsSlot(x: seq<Byte>, y: seq<Byte>, b: Binding)
    requires SlotsInOrder(b) && b.End() <= |x| == |y|
    requires forall p :: InSlot(b, p) ==> x[p] == y[p]
    ensures ReadText(x, b) == ReadText(y, b)
  {
    ReadCharsAgree(x, y, b.obValue, b.cbMaxLen / 2);
  }

  /** A value part holding a string and its terminator reads back as that string. */
  lemma ReadStoredText(img: seq<Byte>, b: Binding, t: seq<WChar>)
    requires b.End() <= |img| && NoNul(t) && |t| < b.cbMaxLen / 2
    requires img[b.obValue..b.obValue + 2 * (|t| + 1)] == EncodeW(t + [NUL])
    ensures ReadText(img, b) == t
  {
    ReadCharsStored(img, b.obValue, b.cbMaxLen / 2, t);
  }

  /**
   * The slot of a text column after the row fill: the value part holds the
   * stored prefix and a terminator followed by zeros, the length part twice
   * the number of stored characters and the status part `DBSTATUS_S_OK`.
   */
  predicate TextSlot(img: seq<Byte>, b: Binding, s: seq<WChar>, plat: Platform)
    requires SlotsInOrder(b) && b.End() <= |img| && b.cbMaxLen >= 2
  {
    var t := StoredText(s, b.cbMaxLen);
    && img[b.obValue..b.obValue + 2 * (|t| + 1)] == EncodeW(t + [NUL])
    && (forall p :: b.obValue + 2 * (|t| + 1) <= p < b.End() ==> img[p] == 0)
    && img[b.obLength..b.obLength + 4] == U32LE(2 * |t|)
    && img[b.obStatus..b.obStatus + 4] == U32LE(plat.statusOk)
  }

  /**
   * The slot of a 4-byte integer column after the row fill: the value part
   * holds `v` followed by zeros, the length part 4 and the status part
   * `DBSTATUS_S_OK`.
   */
  predicate IntSlot(img: seq<Byte>, b: Binding, v: int, plat: Platform)
    requires SlotsInOrder(b) && b.End() <= |img| && b.cbMaxLen >= 4
  {
    && img[b.obValue..b.obValue + 4] == U32LE(v)
    && (forall p :: b.obValue + 4 <= p < b.End() ==> img[p] == 0)
    && img[b.obLength..b.obLength + 4] == U32LE(4)
    && img[b.obStatus..b.obStatus + 4] == U32LE(plat.statusOk)
  }

  /** Whether a slot holds a text column depends only on the bytes of the slot. */
  lemma TextSlotOnlyReadsSlot(x: seq<Byte>, y: seq<Byte>, b: Binding, s: seq<WChar>, plat: Platform)
    requires SlotsInOrder(b) && b.End() <= |x| == |y| && b.cbMaxLen >= 2
    requires forall p :: InSlot(b, p) ==> x[p] == y[p]
    requires TextSlot(x, b, s, plat)
    ensures TextSlot(y, b, s, plat)
  {
    var t := StoredText(s, b.cbMaxLen);
    RangeAgrees(x, y, b.obValue, b.obValue + 2 * (|t| + 1));
    RangeAgrees(x, y, b.obLength, b.obLength + 4);
    RangeAgrees(x, y, b.obStatus, b.obStatus + 4);
  }

  /** Whether a slot holds an integer column depends only on the bytes of the slot. */
  lemma IntSlotOnlyReadsSlot(x: seq<Byte>, y: seq<Byte>, b: Binding, v: int, plat: Platform)
    requires SlotsInOrder(b) && b.End() <= |x| == |y| && b.cbMaxLen >= 4
    requires forall p :: InSlot(b, p) ==> x[p] == y[p]
    requires IntSlot(x, b, v, plat)
    ensures IntSlot(y, b, v, plat)
  {
    RangeAgrees(x, y, b.obValue, b.obValue + 4);
    RangeAgrees(x, y, b.obLength, b.obLength + 4);
    RangeAgrees(x, y, b.obStatus, b.obStatus + 4);
  }

  /**
   * What a text slot means to a reader: the value part reads back as the
   * stored prefix (so `wcslen` of it is the stored count), the length part
   * as twice that count and the status part as `DBSTATUS_S_OK`.
   */
  lemma TextSlotReads(img: seq<Byte>, b: Binding, s: seq<WChar>, plat: Platform)
    requires plat.Valid() && SlotsInOrder(b) && b.End() <= |img| && b.cbMaxLen >= 2 && NoNul(s)
    requires TextSlot(img, b, s, plat)
    ensures var t := StoredText(s, b.cbMaxLen);
      && ReadText(img, b) == t
      && ReadU32(img, b.obLength) == (2 * |t|) % U32_MOD
      && ReadU32(img, b.obStatus) == plat.statusOk
  {
    ReadStoredText(img, b, StoredText(s, b.cbMaxLen));
    U32RoundTrip(2 * |StoredText(s, b.cbMaxLen)|);
    U32RoundTrip(plat.statusOk);
  }

  /** What an integer slot means to a reader: the value modulo 2^32, the length 4 and an OK status. */
  lemma IntSlotReads(img: seq<Byte>, b: Binding, v: int, plat: Platform)
    requires plat.Valid() && SlotsInOrder(b) && b.End() <= |img| && b.cbMaxLen >= 4
    requires IntSlot(img, b, v, plat)
    ensures ReadU32(img, b.obValue) == v % U32_MOD
    ensures ReadU32(img, b.obLength) == 4 && ReadU32(img, b.obStatus) == plat.statusOk
  {
    U32RoundTrip(v);
    U32RoundTrip(4);
    U32RoundTrip(plat.statusOk);
  }

  /** The value part a text column write leaves: the stored prefix and a terminator. */
  lemma TextValueContents(img: seq<Byte>, b: Binding, s: seq<WChar>, plat: Platform)
    requires SlotsInOrder(b) && b.End() <= |img| && b.cbMaxLen >= 2
    ensures var t := StoredText(s, b.cbMaxLen);
      WriteText(img, b, s, plat)[b.obValue..b.obValue + 2 * (|t| + 1)] == EncodeW(t + [NUL])
  {
    var t := StoredText(s, b.cbMaxLen);
    var e := EncodeW(t + [NUL]);
    var valued := Splice(img, b.obValue, e);
    var measured := Splice(valued, b.obLength, U32LE(2 * |ReadText(valued, b)|));
    SpliceKeepsRange(valued, b.obLength, U32LE(2 * |ReadText(valued, b)|), b.obValue, b.obValue + |e|);
    SpliceKeepsRange(measured, b.obStatus, U32LE(plat.statusOk), b.obValue, b.obValue + |e|);
  }

  /** The length part a text column write leaves: `wcslen` of what it stored, times two. */
  lemma TextLengthContents(img: seq<Byte>, b: Binding, s: seq<WChar>, plat: Platform)
    requires SlotsInOrder(b) && b.End() <= |img| && b.cbMaxLen >= 2 && NoNul(s)
    ensures var t := StoredText(s, b.cbMaxLen);
      WriteText(img, b, s, plat)[b.obLength..b.obLength + 4] == U32LE(2 * |t|)
  {
    var t := StoredText(s, b.cbMaxLen);
    var e := EncodeW(t + [NUL]);
    var valued := Splice(img, b.obValue, e);
    ReadStoredText(valued, b, t);
    var measured := Splice(valued, b.obLength, U32LE(2 * |t|));
    SpliceKeepsRange(measured, b.obStatus, U32LE(plat.statusOk), b.obLength, b.obLength + 4);
  }

  /** Writing a text column into a slot of zeros leaves a text slot. */
  lemma TextSlotContents(img: seq<Byte>, b: Binding, s: seq<WChar>, plat: Platform)
    requires SlotsInOrder(b) && b.End() <= |img| && b.cbMaxLen >= 2 && NoNul(s)
    requires forall p :: InSlot(b, p) ==> img[p] == 0
    ensures TextSlot(WriteText(img, b, s, plat), b, s, plat)
  {
    var t := StoredText(s, b.cbMaxLen);
    var r := WriteText(img, b, s, plat);
    TextValueContents(img, b, s, plat);
    TextLengthContents(img, b, s, plat);
    forall p | b.obValue + 2 * (|t| + 1) <= p < b.End() ensures r[p] == 0 {
      var valued := Splice(img, b.obValue, EncodeW(t + [NUL]));
      var measured := Splice(valued, b.obLength, U32LE(2 * |ReadText(valued, b)|));
      assert r[p] == measured[p] == valued[p] == img[p];
    }
  }

  /** Writing an integer column into a slot of zeros leaves an integer slot. */
  lemma IntSlotContents(img: seq<Byte>, b: Binding, v: int, plat: Platform)
    requires SlotsInOrder(b) && b.End() <= |img| && b.cbMaxLen >= 4
    requires forall p :: InSlot(b, p) ==> img[p] == 0
    ensures IntSlot(WriteInt(img, b, v, plat), b, v, plat)
  {
    var valued := Splice(img, b.obValue, U32LE(v));
    var measured := Splice(valued, b.obLength, U32LE(4));
    SpliceKeepsRange(valued, b.obLength, U32LE(4), b.obValue, b.obValue + 4);
    SpliceKeepsRange(measured, b.obStatus, U32LE(plat.statusOk), b.obValue, b.obValue + 4);
    SpliceKeepsRange(measured, b.obStatus, U32LE(plat.statusOk), b.obLength, b.obLength + 4);
  }

  /** Bytes outside the slots of the columns written so far are still zero. */
  lemma FillColumnsOutside(size: nat, bindings: seq<Binding>, row: seq<seq<WChar>>, n: nat,
                           plat: Platform, parse: seq<WChar> -> int, p: nat)
    requires WellFormed(bindings, size, plat) && n <= |bindings| <= |row| && p < size
    requires forall k :: 0 <= k < n ==> !InSlot(bindings[k], p)
    ensures FillColumns(size, bindings, row, n, plat, parse)[p] == 0
  {
    FillColumnsFrom(size, bindings, row, 0, n, plat, parse, p);
  }

  /** A column's slot is not touched by the columns written after it. */
  lemma FillColumnsKeepsSlot(size: nat, bindings: seq<Binding>, row: seq<seq<WChar>>, n: nat,
                             plat: Platform, parse: seq<WChar> -> int, j: nat, p: nat)
    requires WellFormed(bindings, size, plat) && j < n <= |bindings| <= |row| && InSlot(bindings[j], p)
    ensures FillColumns(size, bindings, row, n, plat, parse)[p]
         == FillColumns(size, bindings, row, j + 1, plat, parse)[p]
  {
    forall k | j + 1 <= k < n ensures !InSlot(bindings[k], p) {
      assert bindings[j].End() <= bindings[k].obLength;
    }
    FillColumnsFrom(size, bindings, row, j + 1, n, plat, parse, p);
  }

  /** Writing columns `lo` to `n - 1` leaves the bytes outside their slots as they were. */
  lemma FillColumnsFrom(size: nat, bindings: seq<Binding>, row: seq<seq<WChar>>, lo: nat, n: nat,
                        plat: Platform, parse: seq<WChar> -> int, p: nat)
    requires WellFormed(bindings, size, plat) && lo <= n <= |bindings| <= |row| && p < size
    requires forall k :: lo <= k < n ==> !InSlot(bindings[k], p)
    ensures FillColumns(size, bindings, row, n, plat, parse)[p] == FillColumns(size, bindings, row, lo, plat, parse)[p]
  {
    var k := lo;
    while k < n
      invariant lo <= k <= n
      invariant FillColumns(size, bindings, row, k, plat, parse)[p] == FillColumns(size, bindings, row, lo, plat, parse)[p]
    {
      FillColumnsOne(size, bindings, row, k + 1, plat, parse, p);
      k := k + 1;
    }
  }

  /** Writing column `n - 1` leaves each byte outside its slot as it was. */
  lemma FillColumnsOne(size: nat, bindings: seq<Binding>, row: seq<seq<WChar>>, n: nat,
                       plat: Platform, parse: seq<WChar> -> int, p: nat)
    requires WellFormed(bindings, size, plat) && 1 <= n <= |bindings| <= |row| && p < size
    requires !InSlot(bindings[n - 1], p)
    ensures FillColumns(size, bindings, row, n, plat, parse)[p] == FillColumns(size, bindings, row, n - 1, plat, parse)[p]
  {
    var prev := FillColumns(size, bindings, row, n - 1, plat, parse);
    assert FillColumns(size, bindings, row, n, plat, parse) == WriteColumn(prev, bindings[n - 1], row[n - 1], plat, parse);
  }

  /**
   * In the finished row, the slot of column `j` holds exactly what writing
   * column `j` alone into a zeroed buffer puts there: the columns do not
   * interfere.
   */
  lemma RowImageSlot(size: nat, bindings: seq<Binding>, row: seq<seq<WChar>>,
                     plat: Platform, parse: seq<WChar> -> int, j: nat)
    requires WellFormed(bindings, size, plat) && |bindings| <= |row| && j < |bindings|
    ensures var b := bindings[j];
      var before := FillColumns(size, bindings, row, j, plat, parse);
      && (forall p :: InSlot(b, p) ==> before[p] == 0)
      && forall p :: InSlot(b, p) ==>
           RowImage(size, bindings, row, plat, parse)[p] == WriteColumn(before, b, row[j], plat, parse)[p]
  {
    var b := bindings[j];
    forall p | InSlot(b, p) ensures FillColumns(size, bindings, row, j, plat, parse)[p] == 0 {
      forall k | 0 <= k < j ensures !InSlot(bindings[k], p) {
        assert bindings[k].End() <= b.obLength;
      }
      FillColumnsOutside(size, bindings, row, j, plat, parse, p);
    }
    forall p | InSlot(b, p)
      ensures RowImage(size, bindings, row, plat, parse)[p]
           == WriteColumn(FillColumns(size, bindings, row, j, plat, parse), b, row[j], plat, parse)[p]
    {
      FillColumnsKeepsSlot(size, bindings, row, |bindings|, plat, parse, j, p);
    }
  }

  /** The slot of a text column of a filled row is a text slot for the row's string. */
  lemma RowImageTextSlot(size: nat, bindings: seq<Binding>, row: seq<seq<WChar>>,
                         plat: Platform, parse: seq<WChar> -> int, j: nat)
    requires WellFormed(bindings, size, plat) && |bindings| <= |row| && j < |bindings|
    requires bindings[j].wType == plat.typeWStr && NoNul(row[j])
    ensures TextSlot(RowImage(size, bindings, row, plat, parse), bindings[j], row[j], plat)
  {
    var b := bindings[j];
    var before := FillColumns(size, bindings, row, j, plat, parse);
    RowImageSlot(size, bindings, row, plat, parse, j);
    TextSlotContents(before, b, row[j], plat);
    TextSlotOnlyReadsSlot(WriteText(before, b, row[j], plat), RowImage(size, bindings, row, plat, parse), b, row[j], plat);
  }

  /**
   * Text columns of a filled row: the stored text is the prefix of the input
   * of length `min(len, cbMaxLen / 2 - 1)`, it reads back from the value
   * part, the length part is twice the stored character count and the
   * status part is `DBSTATUS_S_OK`.
   */
  lemma RowImageText(size: nat, bindings: seq<Binding>, row: seq<seq<WChar>>,
                     plat: Platform, parse: seq<WChar> -> int, j: nat)
    requires plat.Valid() && WellFormed(bindings, size, plat) && |bindings| <= |row| && j < |bindings|
    requires bindings[j].wType == plat.typeWStr && NoNul(row[j])
    ensures var img := RowImage(size, bindings, row, plat, parse);
      var b := bindings[j];
      var t := StoredText(row[j], b.cbMaxLen);
      && |t| == Min(|row[j]|, b.cbMaxLen / 2 - 1) && t == row[j][..|t|]
      && ReadText(img, b) == t
      && ReadU32(img, b.obLength) == (2 * |t|) % U32_MOD
      && ReadU32(img, b.obStatus) == plat.statusOk
  {
    RowImageTextSlot(size, bindings, row, plat, parse, j);
    TextSlotReads(RowImage(size, bindings, row, plat, parse), bindings[j], row[j], plat);
  }

  /**
   * 4-byte integer columns of a filled row: the value part holds `parse` of
   * the input truncated to 32 bits, the length part 4 and the status part
   * `DBSTATUS_S_OK`.
   */
  lemma RowImageInt(size: nat, bindings: seq<Binding>, row: seq<seq<WChar>>,
                    plat: Platform, parse: seq<WChar> -> int, j: nat)
    requires plat.Valid() && WellFormed(bindings, size, plat) && |bindings| <= |row| && j < |bindings|
    requires bindings[j].wType == plat.typeI4
    ensures IntSlot(RowImage(size, bindings, row, plat, parse), bindings[j], parse(row[j]), plat)
    ensures ReadU32(RowImage(size, bindings, row, plat, parse), bindings[j].obValue) == parse(row[j]) % U32_MOD
    ensures ReadU32(RowImage(size, bindings, row, plat, parse), bindings[j].obLength) == 4
    ensures ReadU32(RowImage(size, bindings, row, plat, parse), bindings[j].obStatus) == plat.statusOk
  {
    var img := RowImage(size, bindings, row, plat, parse);
    var b := bindings[j];
    var before := FillColumns(size, bindings, row, j, plat, parse);
    RowImageSlot(size, bindings, row, plat, parse, j);
    assert b.wType != plat.typeWStr;
    IntSlotContents(before, b, parse(row[j]), plat);
    IntSlotOnlyReadsSlot(WriteInt(before, b, parse(row[j]), plat), img, b, parse(row[j]), plat);
    IntSlotReads(img, b, parse(row[j]), plat);
  }

  /** A column the row fill does not set: neither text nor a 4-byte integer. */
  predicate Unfilled(b: Binding, plat: Platform) {
    b.wType != plat.typeWStr && b.wType != plat.typeI4
  }

  /**
   * Every other column of a filled row (the photo bound as an object among
   * them) and every byte outside all slots is left zero by the fill.
   */
  lemma RowImageZeroElsewhere(size: nat, bindings: seq<Binding>, row: seq<seq<WChar>>,
                              plat: Platform, parse: seq<WChar> -> int)
    requires WellFormed(bindings, size, plat) && |bindings| <= |row|
    ensures var img := RowImage(size, bindings, row, plat, parse);
      && (forall j, p :: 0 <= j < |bindings| && Unfilled(bindings[j], plat) && InSlot(bindings[j], p) ==> img[p] == 0)
      && (forall p :: 0 <= p < size && (forall k :: 0 <= k < |bindings| ==> !InSlot(bindings[k], p)) ==> img[p] == 0)
  {
    var img := RowImage(size, bindings, row, plat, parse);
    forall j, p | 0 <= j < |bindings| && Unfilled(bindings[j], plat) && InSlot(bindings[j], p)
      ensures img[p] == 0
    {
      RowImageSlot(size, bindings, row, plat, parse, j);
    }
    forall p | 0 <= p < size && (forall k :: 0 <= k < |bindings| ==> !InSlot(bindings[k], p))
      ensures img[p] == 0
    {
      FillColumnsOutside(size, bindings, row, |bindings|, plat, parse, p);
    }
  }
}
