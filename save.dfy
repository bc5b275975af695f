/**
 * The record buffer of `LoadEmployeeInfo` and `SaveEmployeeInfo`: the seek
 * key on the employee ID, and the six edited text fields the dialog writes
 * into it before `SetData`.
 */
module SeekAndSave {
  import opened Bytes
  import opened OleDb
  import opened Record

  /** The columns after the key that `SaveEmployeeInfo` copies from the dialog. */
  const EDITED: nat := 6

  /** The seek key: a zeroed buffer whose first column holds the employee ID. */
  function SeekKey(size: nat, b: Binding, id: int, plat: Platform): (r: seq<Byte>)
    requires SlotsInOrder(b) && b.End() <= size && b.cbMaxLen >= 4
    ensures |r| == size
  {
    WriteInt(Zeros(size), b, id, plat)
  }

  /**
   * Builds the seek key in place: the buffer is zeroed, then the length 4,
   * `DBSTATUS_S_OK` and the ID are stored, in that order, into the key column.
   */
  method SetSeekKey(data: array<Byte>, b: Binding, id: int, plat: Platform)
    requires SlotsInOrder(b) && b.End() <= data.Length && b.cbMaxLen >= 4
    modifies data
    ensures data[..] == SeekKey(data.Length, b, id, plat)
  {
    forall p | 0 <= p < data.Length {
      data[p] := 0;
    }
    ghost var zero := data[..];
    assert zero == Zeros(data.Length);
    WriteBytes(data, b.obLength, U32LE(4));
    ghost var measured := data[..];
    WriteBytes(data, b.obStatus, U32LE(plat.statusOk));
    WriteBytes(data, b.obValue, U32LE(id));
    SpliceCommute(measured, b.obStatus, U32LE(plat.statusOk), b.obValue, U32LE(id));
    SpliceCommute(zero, b.obLength, U32LE(4), b.obValue, U32LE(id));
  }

  /**
   * The key column of the seek key reads back as the ID truncated to 32
   * bits, with length 4 and an OK status; every other byte is zero.
   */
  lemma SeekKeyReads(size: nat, b: Binding, id: int, plat: Platform)
    requires plat.Valid() && SlotsInOrder(b) && b.End() <= size && b.cbMaxLen >= 4
    ensures IntSlot(SeekKey(size, b, id, plat), b, id, plat)
    ensures ReadU32(SeekKey(size, b, id, plat), b.obValue) == id % U32_MOD
    ensures ReadU32(SeekKey(size, b, id, plat), b.obLength) == 4
    ensures ReadU32(SeekKey(size, b, id, plat), b.obStatus) == plat.statusOk
    ensures forall p :: 0 <= p < size && !InSlot(b, p) ==> SeekKey(size, b, id, plat)[p] == 0
  {
    IntSlotContents(Zeros(size), b, id, plat);
    IntSlotReads(SeekKey(size, b, id, plat), b, id, plat);
  }

  /**
   * What `GetDlgItemText` leaves in a buffer of `maxCount` characters: at
   * most `maxCount - 1` characters of the control's text, then a terminator.
   */
  function DialogText(text: seq<WChar>, maxCount: nat): (r: seq<WChar>)
    requires maxCount >= 1
    ensures |r| == Min(|text|, maxCount - 1) + 1
  {
    text[..Min(|text|, maxCount - 1)] + [NUL]
  }

  /**
   * The bytes `SaveEmployeeInfo` has the dialog store at a value part as
   * written: the byte size `cbMaxLen` is passed where a count of characters
   * is expected, so up to `2 * cbMaxLen` bytes are stored.
   */
  function AsWrittenStore(b: Binding, text: seq<WChar>): (r: seq<Byte>)
    requires b.cbMaxLen >= 1
    ensures |r| == 2 * (Min(|text|, b.cbMaxLen - 1) + 1)
  {
    EncodeW(DialogText(text, b.cbMaxLen))
  }

  /** The bytes stored at a value part when the count is given in characters, `cbMaxLen / 2`. */
  function DialogStore(b: Binding, text: seq<WChar>): (r: seq<Byte>)
    requires b.cbMaxLen >= 2
    ensures |r| <= b.cbMaxLen
  {
    EncodeW(DialogText(text, b.cbMaxLen / 2))
  }

  /** As written, the copy stays inside the value part exactly when the text is shorter than `cbMaxLen / 2`. */
  lemma AsWrittenOverrun(b: Binding, text: seq<WChar>)
    requires b.cbMaxLen >= 2
    ensures |AsWrittenStore(b, text)| <= b.cbMaxLen <==> |text| < b.cbMaxLen / 2
  {
  }

  /**
   * A concrete overrun: a home phone column of 24 characters has a 50-byte
   * value part, and a 25-character text makes the call store 52 bytes, past
   * the end of the slot.
   */
  lemma AsWrittenHomePhoneOverrun(plat: Platform)
    ensures var b := Binding(7, 0, 4, 8, 50, plat.typeWStr, 0, 0, NoObject);
      var text: seq<WChar> := seq(25, _ => 0x30);
      b.obValue + |AsWrittenStore(b, text)| == 60 > b.End() == 58
  {
  }

  /**
   * With the count in characters the copy is exactly the stored prefix and
   * terminator the row fill writes, so it always fits the value part.
   */
  lemma DialogStoreIsStoredText(b: Binding, text: seq<WChar>)
    requires b.cbMaxLen >= 2
    ensures DialogText(text, b.cbMaxLen / 2) == StoredText(text, b.cbMaxLen) + [NUL]
    ensures DialogStore(b, text) == EncodeW(StoredText(text, b.cbMaxLen) + [NUL])
  {
  }

  /** For texts that fit, the code as written and the corrected count store the same bytes. */
  lemma AsWrittenAgreesWhenShort(b: Binding, text: seq<WChar>)
    requires b.cbMaxLen >= 2 && |text| < b.cbMaxLen / 2
    ensures AsWrittenStore(b, text) == DialogStore(b, text)
  {
    assert DialogText(text, b.cbMaxLen) == DialogText(text, b.cbMaxLen / 2);
  }

  /**
   * The bindings `SaveEmployeeInfo` works with: a key column that holds a
   * 4-byte integer, followed by the six edited text columns.
   */
  predicate EditBindings(bindings: seq<Binding>, size: nat, plat: Platform) {
    && WellFormed(bindings, size, plat)
    && |bindings| > EDITED
    && bindings[0].cbMaxLen >= 4
    && forall k :: 1 <= k <= EDITED ==> bindings[k].wType == plat.typeWStr
  }

  /** The edited columns' slots lie in a buffer of `size` bytes, each with room for a terminator. */
  predicate FieldsFit(bindings: seq<Binding>, size: nat) {
    && |bindings| > EDITED
    && forall k :: 1 <= k <= EDITED ==>
         SlotsInOrder(bindings[k]) && bindings[k].End() <= size && bindings[k].cbMaxLen >= 2
  }

  /** The buffer after the dialog texts of the edited columns 1 to `n` are copied in. */
  function DialogFields(img: seq<Byte>, bindings: seq<Binding>, texts: seq<seq<WChar>>, n: nat, plat: Platform): (r: seq<Byte>)
    requires FieldsFit(bindings, |img|) && n <= EDITED && |texts| == EDITED
    ensures |r| == |img|
  {
    if n == 0 then img
    else Splice(DialogFields(img, bindings, texts, n - 1, plat), bindings[n].obValue, DialogStore(bindings[n], texts[n - 1]))
  }

  /**
   * The buffer after the length and status parts of the edited columns 1 to
   * `n` are set, one column after the other: each length is twice `wcslen`
   * of that column's value part, and each status is OK.
   */
  function MeasureFields(copied: seq<Byte>, bindings: seq<Binding>, n: nat, plat: Platform): (r: seq<Byte>)
    requires FieldsFit(bindings, |copied|) && n <= EDITED
    ensures |r| == |copied|
  {
    if n == 0 then copied
    else WriteMeasure(MeasureFields(copied, bindings, n - 1, plat), bindings[n], plat)
  }

  /** The buffer `SaveEmployeeInfo` hands to `SetData`. */
  function SavedImage(size: nat, bindings: seq<Binding>, id: int, texts: seq<seq<WChar>>, plat: Platform): (r: seq<Byte>)
    requires EditBindings(bindings, size, plat) && |texts| == EDITED
    ensures |r| == size
  {
    var key := SeekKey(size, bindings[0], id, plat);
    MeasureFields(DialogFields(key, bindings, texts, EDITED, plat), bindings, EDITED, plat)
  }

  /** `GetDlgItemText` of one edited field into its value part, with the count in characters. */
  method CopyDialogText(data: array<Byte>, b: Binding, text: seq<WChar>)
    requires SlotsInOrder(b) && b.End() <= data.Length && b.cbMaxLen >= 2
    modifies data
    ensures data[..] == Splice(old(data[..]), b.obValue, DialogStore(b, text))
  {
    WriteBytes(data, b.obValue, DialogStore(b, text));
  }

  /** The six `GetDlgItemText` calls, one per edited column, with the count in characters. */
  method CopyDialogTexts(data: array<Byte>, bindings: seq<Binding>, texts: seq<seq<WChar>>, plat: Platform)
    requires FieldsFit(bindings, data.Length) && |texts| == EDITED
    modifies data
    ensures data[..] == DialogFields(old(data[..]), bindings, texts, EDITED, plat)
  {
    ghost var key := data[..];
    CopyDialogText(data, bindings[1], texts[0]);
    assert data[..] == DialogFields(key, bindings, texts, 1, plat);
    CopyDialogText(data, bindings[2], texts[1]);
    assert data[..] == DialogFields(key, bindings, texts, 2, plat);
    CopyDialogText(data, bindings[3], texts[2]);
    assert data[..] == DialogFields(key, bindings, texts, 3, plat);
    CopyDialogText(data, bindings[4], texts[3]);
    assert data[..] == DialogFields(key, bindings, texts, 4, plat);
    CopyDialogText(data, bindings[5], texts[4]);
    assert data[..] == DialogFields(key, bindings, texts, 5, plat);
    CopyDialogText(data, bindings[6], texts[5]);
  }

  /**
   * The six dialog copies into the edited columns, then the loop that sets
   * each one's length from `wcslen` of its value part and its status to OK.
   */
  method FillEditedFields(data: array<Byte>, bindings: seq<Binding>, texts: seq<seq<WChar>>, plat: Platform)
    requires EditBindings(bindings, data.Length, plat) && |texts| == EDITED
    modifies data
    ensures data[..] == MeasureFields(DialogFields(old(data[..]), bindings, texts, EDITED, plat), bindings, EDITED, plat)
  {
    CopyDialogTexts(data, bindings, texts, plat);
    MeasureEditedFields(data, bindings, plat);
  }

  /** The loop over the edited columns that sets each one's length from `wcslen` of its value part and its status to OK. */
  method MeasureEditedFields(data: array<Byte>, bindings: seq<Binding>, plat: Platform)
    requires FieldsFit(bindings, data.Length)
    modifies data
    ensures data[..] == MeasureFields(old(data[..]), bindings, EDITED, plat)
  {
    ghost var copied := data[..];
    var index: nat := 1;
    while index <= 6
      invariant 0 < index <= 7
      invariant data[..] == MeasureFields(copied, bindings, index - 1, plat)
    {
      MeasureEditedField(data, copied, bindings, index, plat);
      index := index + 1;
    }
  }

  /** One pass of the length loop: column `n` gets its length from its value part and status OK. */
  method MeasureEditedField(data: array<Byte>, ghost copied: seq<Byte>, bindings: seq<Binding>, n: nat, plat: Platform)
    requires FieldsFit(bindings, |copied|) && 1 <= n <= EDITED
    requires data[..] == MeasureFields(copied, bindings, n - 1, plat)
    modifies data
    ensures data[..] == MeasureFields(copied, bindings, n, plat)
  {
    MeasureField(data, bindings[n], plat);
  }

  /**
   * The record part of `SaveEmployeeInfo`: the seek key, and when the seek
   * found the employee's row, the edited fields.
   */
  method PrepareSave(data: array<Byte>, bindings: seq<Binding>, id: int, texts: seq<seq<WChar>>,
                     plat: Platform, rowFound: bool)
    requires EditBindings(bindings, data.Length, plat) && |texts| == EDITED
    modifies data
    ensures rowFound ==> data[..] == SavedImage(data.Length, bindings, id, texts, plat)
    ensures !rowFound ==> data[..] == SeekKey(data.Length, bindings[0], id, plat)
  {
    SetSeekKey(data, bindings[0], id, plat);
    if rowFound {
      FillEditedFields(data, bindings, texts, plat);
    }
  }

  /** The dialog copies into columns `lo + 1` to `n` leave the bytes outside their slots as they were. */
  lemma DialogFieldsFrom(img: seq<Byte>, bindings: seq<Binding>, texts: seq<seq<WChar>>,
                         lo: nat, n: nat, plat: Platform, p: nat)
    requires FieldsFit(bindings, |img|) && lo <= n <= EDITED && |texts| == EDITED && p < |img|
    requires forall k :: lo < k <= n ==> !InSlot(bindings[k], p)
    ensures DialogFields(img, bindings, texts, n, plat)[p] == DialogFields(img, bindings, texts, lo, plat)[p]
  {
    var k := lo;
    while k < n
      invariant lo <= k <= n
      invariant DialogFields(img, bindings, texts, k, plat)[p] == DialogFields(img, bindings, texts, lo, plat)[p]
    {
      DialogFieldsOne(img, bindings, texts, k + 1, plat, p);
      k := k + 1;
    }
  }

  /** The dialog copy into column `n` leaves each byte outside its slot as it was. */
  lemma DialogFieldsOne(img: seq<Byte>, bindings: seq<Binding>, texts: seq<seq<WChar>>, n: nat, plat: Platform, p: nat)
    requires FieldsFit(bindings, |img|) && 1 <= n <= EDITED && |texts| == EDITED && p < |img| && !InSlot(bindings[n], p)
    ensures DialogFields(img, bindings, texts, n, plat)[p] == DialogFields(img, bindings, texts, n - 1, plat)[p]
  {
    var prev := DialogFields(img, bindings, texts, n - 1, plat);
    assert DialogFields(img, bindings, texts, n, plat) == Splice(prev, bindings[n].obValue, DialogStore(bindings[n], texts[n - 1]));
  }

  /** Setting the lengths of columns `lo + 1` to `n` leaves the bytes outside their slots as they were. */
  lemma MeasureFieldsFrom(copied: seq<Byte>, bindings: seq<Binding>, lo: nat, n: nat, plat: Platform, p: nat)
    requires FieldsFit(bindings, |copied|) && lo <= n <= EDITED && p < |copied|
    requires forall k :: lo < k <= n ==> !InSlot(bindings[k], p)
    ensures MeasureFields(copied, bindings, n, plat)[p] == MeasureFields(copied, bindings, lo, plat)[p]
  {
    var k := lo;
    while k < n
      invariant lo <= k <= n
      invariant MeasureFields(copied, bindings, k, plat)[p] == MeasureFields(copied, bindings, lo, plat)[p]
    {
      MeasureFieldsOne(copied, bindings, k + 1, plat, p);
      k := k + 1;
    }
  }

  /** Setting the length of column `n` leaves each byte outside its slot as it was. */
  lemma MeasureFieldsOne(copied: seq<Byte>, bindings: seq<Binding>, n: nat, plat: Platform, p: nat)
    requires FieldsFit(bindings, |copied|) && 1 <= n <= EDITED && p < |copied| && !InSlot(bindings[n], p)
    ensures MeasureFields(copied, bindings, n, plat)[p] == MeasureFields(copied, bindings, n - 1, plat)[p]
  {
    var prev := MeasureFields(copied, bindings, n - 1, plat);
    assert MeasureFields(copied, bindings, n, plat) == WriteMeasure(prev, bindings[n], plat);
  }

  /** Setting a column's length and status to given values depends only on the bytes of its slot. */
  lemma WriteLengthOnlyReadsSlot(x: seq<Byte>, y: seq<Byte>, b: Binding, len: int, plat: Platform)
    requires SlotsInOrder(b) && b.End() <= |x| == |y|
    requires forall p :: InSlot(b, p) ==> x[p] == y[p]
    ensures forall p :: InSlot(b, p) ==> WriteLength(x, b, len, plat)[p] == WriteLength(y, b, len, plat)[p]
  {
    forall p | InSlot(b, p) ensures WriteLength(x, b, len, plat)[p] == WriteLength(y, b, len, plat)[p] {
      SpliceAgrees(x, y, b.obLength, U32LE(len), p);
      SpliceAgrees(Splice(x, b.obLength, U32LE(len)), Splice(y, b.obLength, U32LE(len)), b.obStatus, U32LE(plat.statusOk), p);
    }
  }

  /** Setting a column's length from its value part depends only on the bytes of its slot. */
  lemma WriteMeasureOnlyReadsSlot(x: seq<Byte>, y: seq<Byte>, b: Binding, plat: Platform)
    requires SlotsInOrder(b) && b.End() <= |x| == |y|
    requires forall p :: InSlot(b, p) ==> x[p] == y[p]
    ensures forall p :: InSlot(b, p) ==> WriteMeasure(x, b, plat)[p] == WriteMeasure(y, b, plat)[p]
  {
    ReadTextOnlyReadsSlot(x, y, b);
    WriteLengthOnlyReadsSlot(x, y, b, 2 * |ReadText(x, b)|, plat);
  }

  /** The slot of column `j` overlaps the slot of no other column among the key and edited ones. */
  predicate SlotApart(bindings: seq<Binding>, j: nat)
    requires EDITED < |bindings| && j <= EDITED
  {
    forall k :: 0 <= k <= EDITED && k != j ==>
      bindings[k].End() <= bindings[j].obLength || bindings[j].End() <= bindings[k].obLength
  }

  /** The bindings `SaveEmployeeInfo` works with fit the buffer, and their slots are apart. */
  lemma EditApart(bindings: seq<Binding>, size: nat, plat: Platform, j: nat)
    requires EditBindings(bindings, size, plat) && j <= EDITED
    ensures FieldsFit(bindings, size) && SlotApart(bindings, j)
  {
    forall k | 0 <= k <= EDITED && k != j
      ensures bindings[k].End() <= bindings[j].obLength || bindings[j].End() <= bindings[k].obLength
    {
      if k < j {
        assert bindings[k].End() <= bindings[j].obLength;
      } else {
        assert bindings[j].End() <= bindings[k].obLength;
      }
    }
  }

  /** A byte of the slot of column `j` lies in no other key or edited column's slot. */
  lemma SlotApartMiss(bindings: seq<Binding>, j: nat, p: int)
    requires EDITED < |bindings| && j <= EDITED && SlotApart(bindings, j) && InSlot(bindings[j], p)
    ensures forall k :: 0 <= k <= EDITED && k != j ==> !InSlot(bindings[k], p)
  {
    forall k | 0 <= k <= EDITED && k != j ensures !InSlot(bindings[k], p) {
      assert bindings[k].End() <= bindings[j].obLength || bindings[j].End() <= bindings[k].obLength;
    }
  }

  /** The dialog copies into the first `i` edited columns leave the slot of column `i + 1` as it was. */
  lemma DialogBeforeSlot(key: seq<Byte>, bindings: seq<Binding>, texts: seq<seq<WChar>>, plat: Platform, i: nat)
    requires FieldsFit(bindings, |key|) && |texts| == EDITED && i < EDITED && SlotApart(bindings, i + 1)
    ensures forall p :: InSlot(bindings[i + 1], p) ==> DialogFields(key, bindings, texts, i, plat)[p] == key[p]
  {
    forall p | InSlot(bindings[i + 1], p) ensures DialogFields(key, bindings, texts, i, plat)[p] == key[p] {
      SlotApartMiss(bindings, i + 1, p);
      DialogFieldsFrom(key, bindings, texts, 0, i, plat, p);
    }
  }

  /** The dialog copies into the edited columns after `j` leave the slot of column `j` as it was. */
  lemma DialogAfterSlot(key: seq<Byte>, bindings: seq<Binding>, texts: seq<seq<WChar>>, plat: Platform, j: nat)
    requires FieldsFit(bindings, |key|) && |texts| == EDITED && 1 <= j <= EDITED && SlotApart(bindings, j)
    ensures forall p :: InSlot(bindings[j], p) ==>
      DialogFields(key, bindings, texts, EDITED, plat)[p] == DialogFields(key, bindings, texts, j, plat)[p]
  {
    forall p | InSlot(bindings[j], p)
      ensures DialogFields(key, bindings, texts, EDITED, plat)[p] == DialogFields(key, bindings, texts, j, plat)[p]
    {
      SlotApartMiss(bindings, j, p);
      DialogFieldsFrom(key, bindings, texts, j, EDITED, plat, p);
    }
  }

  /** After all dialog copies, the slot of column `j` is the seek key with only column `j`'s copy. */
  lemma DialogFieldsSlot(key: seq<Byte>, bindings: seq<Binding>, texts: seq<seq<WChar>>, plat: Platform, j: nat)
    requires FieldsFit(bindings, |key|) && |texts| == EDITED && 1 <= j <= EDITED && SlotApart(bindings, j)
    ensures var b := bindings[j];
      forall p :: InSlot(b, p) ==>
        DialogFields(key, bindings, texts, EDITED, plat)[p] == Splice(key, b.obValue, DialogStore(b, texts[j - 1]))[p]
  {
    var i := j - 1;
    var b := bindings[i + 1];
    var store := DialogStore(b, texts[i]);
    DialogBeforeSlot(key, bindings, texts, plat, i);
    DialogAfterSlot(key, bindings, texts, plat, j);
    forall p | InSlot(b, p)
      ensures DialogFields(key, bindings, texts, EDITED, plat)[p] == Splice(key, b.obValue, store)[p]
    {
      assert DialogFields(key, bindings, texts, i + 1, plat) == Splice(DialogFields(key, bindings, texts, i, plat), b.obValue, store);
      SpliceAgrees(DialogFields(key, bindings, texts, i, plat), key, b.obValue, store, p);
    }
  }

  /** After all lengths are set, the slot of column `j` is the dialog copies with only column `j`'s length set. */
  lemma MeasureFieldsSlot(copied: seq<Byte>, bindings: seq<Binding>, plat: Platform, j: nat)
    requires FieldsFit(bindings, |copied|) && 1 <= j <= EDITED && SlotApart(bindings, j)
    ensures var b := bindings[j];
      forall p :: InSlot(b, p) ==> MeasureFields(copied, bindings, EDITED, plat)[p] == WriteMeasure(copied, b, plat)[p]
  {
    var i := j - 1;
    MeasuredBeforeSlot(copied, bindings, plat, i);
    WriteMeasureOnlyReadsSlot(MeasureFields(copied, bindings, i, plat), copied, bindings[j], plat);
    MeasuredAfterSlot(copied, bindings, plat, j);
    MeasureFieldsStep(copied, bindings, j, plat);
  }

  /** Setting the lengths of the first `j` edited columns sets that of column `j` last. */
  lemma MeasureFieldsStep(copied: seq<Byte>, bindings: seq<Binding>, j: nat, plat: Platform)
    requires FieldsFit(bindings, |copied|) && 1 <= j <= EDITED
    ensures MeasureFields(copied, bindings, j, plat) == WriteMeasure(MeasureFields(copied, bindings, j - 1, plat), bindings[j], plat)
  {
  }

  /** Setting the lengths of the first `i` edited columns leaves the slot of column `i + 1` as it was. */
  lemma MeasuredBeforeSlot(copied: seq<Byte>, bindings: seq<Binding>, plat: Platform, i: nat)
    requires FieldsFit(bindings, |copied|) && i < EDITED && SlotApart(bindings, i + 1)
    ensures forall p :: InSlot(bindings[i + 1], p) ==> MeasureFields(copied, bindings, i, plat)[p] == copied[p]
  {
    forall p | InSlot(bindings[i + 1], p) ensures MeasureFields(copied, bindings, i, plat)[p] == copied[p] {
      SlotApartMiss(bindings, i + 1, p);
      MeasureFieldsFrom(copied, bindings, 0, i, plat, p);
    }
  }

  /** Setting the lengths of the edited columns after `j` leaves the slot of column `j` as it was. */
  lemma MeasuredAfterSlot(copied: seq<Byte>, bindings: seq<Binding>, plat: Platform, j: nat)
    requires FieldsFit(bindings, |copied|) && 1 <= j <= EDITED && SlotApart(bindings, j)
    ensures forall p :: InSlot(bindings[j], p) ==>
      MeasureFields(copied, bindings, EDITED, plat)[p] == MeasureFields(copied, bindings, j, plat)[p]
  {
    forall p | InSlot(bindings[j], p)
      ensures MeasureFields(copied, bindings, EDITED, plat)[p] == MeasureFields(copied, bindings, j, plat)[p]
    {
      SlotApartMiss(bindings, j, p);
      MeasureFieldsFrom(copied, bindings, j, EDITED, plat, p);
    }
  }

  /**
   * In the saved buffer, the slot of edited column `j` holds exactly what the
   * row fill writes for that text into the seek key: the dialog copy with
   * the count in characters and the separate length loop together store the
   * same bytes.
   */
  lemma SavedImageSlot(size: nat, bindings: seq<Binding>, id: int, texts: seq<seq<WChar>>, plat: Platform, j: nat)
    requires EditBindings(bindings, size, plat) && |texts| == EDITED && 1 <= j <= EDITED
    ensures var key := SeekKey(size, bindings[0], id, plat);
      && (forall p :: InSlot(bindings[j], p) ==> key[p] == 0)
      && forall p :: InSlot(bindings[j], p) ==>
           SavedImage(size, bindings, id, texts, plat)[p] == WriteText(key, bindings[j], texts[j - 1], plat)[p]
  {
    var b := bindings[j];
    var key := SeekKey(size, bindings[0], id, plat);
    assert bindings[0].End() <= b.obLength;
    forall p | InSlot(b, p) ensures key[p] == 0 {
      assert !InSlot(bindings[0], p);
    }
    var copied := DialogFields(key, bindings, texts, EDITED, plat);
    var alone := Splice(key, b.obValue, DialogStore(b, texts[j - 1]));
    EditApart(bindings, size, plat, j);
    DialogFieldsSlot(key, bindings, texts, plat, j);
    MeasureFieldsSlot(copied, bindings, plat, j);
    WriteMeasureOnlyReadsSlot(copied, alone, b, plat);
    DialogStoreIsStoredText(b, texts[j - 1]);
    assert WriteText(key, b, texts[j - 1], plat) == WriteMeasure(alone, b, plat);
  }

  /** The slot of each edited column of the saved buffer is a text slot for its dialog text. */
  lemma SavedImageTextSlot(size: nat, bindings: seq<Binding>, id: int, texts: seq<seq<WChar>>, plat: Platform, j: nat)
    requires EditBindings(bindings, size, plat) && |texts| == EDITED && 1 <= j <= EDITED && NoNul(texts[j - 1])
    ensures TextSlot(SavedImage(size, bindings, id, texts, plat), bindings[j], texts[j - 1], plat)
  {
    var key := SeekKey(size, bindings[0], id, plat);
    SavedImageSlot(size, bindings, id, texts, plat, j);
    TextSlotContents(key, bindings[j], texts[j - 1], plat);
    TextSlotOnlyReadsSlot(WriteText(key, bindings[j], texts[j - 1], plat), SavedImage(size, bindings, id, texts, plat),
                          bindings[j], texts[j - 1], plat);
  }

  /**
   * Each edited column of the saved buffer holds the dialog text cut to
   * `cbMaxLen / 2 - 1` characters, with twice that count as its length and
   * an OK status.
   */
  lemma SavedImageText(size: nat, bindings: seq<Binding>, id: int, texts: seq<seq<WChar>>, plat: Platform, j: nat)
    requires plat.Valid() && EditBindings(bindings, size, plat) && |texts| == EDITED && 1 <= j <= EDITED
    requires NoNul(texts[j - 1])
    ensures var img := SavedImage(size, bindings, id, texts, plat);
      var b := bindings[j];
      var t := StoredText(texts[j - 1], b.cbMaxLen);
      && ReadText(img, b) == t
      && ReadU32(img, b.obLength) == (2 * |t|) % U32_MOD
      && ReadU32(img, b.obStatus) == plat.statusOk
  {
    SavedImageTextSlot(size, bindings, id, texts, plat, j);
    TextSlotReads(SavedImage(size, bindings, id, texts, plat), bindings[j], texts[j - 1], plat);
  }

  /** The key column of the saved buffer still holds the seek key: `SetData` writes the same ID back. */
  lemma SavedImageKey(size: nat, bindings: seq<Binding>, id: int, texts: seq<seq<WChar>>, plat: Platform)
    requires plat.Valid() && EditBindings(bindings, size, plat) && |texts| == EDITED
    ensures IntSlot(SavedImage(size, bindings, id, texts, plat), bindings[0], id, plat)
    ensures ReadU32(SavedImage(size, bindings, id, texts, plat), bindings[0].obValue) == id % U32_MOD
  {
    var b := bindings[0];
    var key := SeekKey(size, b, id, plat);
    SeekKeyReads(size, b, id, plat);
    EditApart(bindings, size, plat, 0);
    forall p | InSlot(b, p) ensures SavedImage(size, bindings, id, texts, plat)[p] == key[p] {
      SlotApartMiss(bindings, 0, p);
      EditedFieldsKeep(key, bindings, texts, plat, p);
    }
    IntSlotOnlyReadsSlot(key, SavedImage(size, bindings, id, texts, plat), b, id, plat);
    IntSlotReads(SavedImage(size, bindings, id, texts, plat), b, id, plat);
  }

  /** Every byte of the saved buffer outside the key and edited columns' slots is zero. */
  lemma SavedImageZeroElsewhere(size: nat, bindings: seq<Binding>, id: int, texts: seq<seq<WChar>>, plat: Platform)
    requires EditBindings(bindings, size, plat) && |texts| == EDITED
    ensures forall p :: 0 <= p < size && (forall k :: 0 <= k <= EDITED ==> !InSlot(bindings[k], p)) ==>
      SavedImage(size, bindings, id, texts, plat)[p] == 0
  {
    var key := SeekKey(size, bindings[0], id, plat);
    EditApart(bindings, size, plat, 0);
    forall p | 0 <= p < size && (forall k :: 0 <= k <= EDITED ==> !InSlot(bindings[k], p))
      ensures SavedImage(size, bindings, id, texts, plat)[p] == 0
    {
      EditedFieldsKeep(key, bindings, texts, plat, p);
    }
  }

  /** Filling the edited columns leaves each byte outside their slots as it was. */
  lemma EditedFieldsKeep(img: seq<Byte>, bindings: seq<Binding>, texts: seq<seq<WChar>>, plat: Platform, p: nat)
    requires FieldsFit(bindings, |img|) && |texts| == EDITED && p < |img|
    requires forall k :: 0 < k <= EDITED ==> !InSlot(bindings[k], p)
    ensures MeasureFields(DialogFields(img, bindings, texts, EDITED, plat), bindings, EDITED, plat)[p] == img[p]
  {
    DialogFieldsFrom(img, bindings, texts, 0, EDITED, plat, p);
    MeasureFieldsFrom(DialogFields(img, bindings, texts, EDITED, plat), bindings, 0, EDITED, plat, p);
  }
}
