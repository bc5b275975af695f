/**
 * The provider-independent logic of the three dialog operations of the
 * sample: the employee-name list that fills the combobox, the detail view of
 * one employee, and the column sets each of them binds.
 */
module Employees {
  import opened Wrappers
  import opened Bytes
  import opened OleDb
  import opened Catalog
  import opened Layout
  import opened Record
  import opened SeekAndSave

  /** The columns `PopulateEmployeeNameList` binds, in binding order. */
  const NameColumns: seq<string> := ["EmployeeID", "LastName", "FirstName"]

  /** The columns `LoadEmployeeInfo` binds: the key, six text fields and the photo. */
  const DetailColumns: seq<string> :=
    ["EmployeeID", "Address", "City", "Region", "PostalCode", "Country", "HomePhone", "Photo"]

  /** The columns `SaveEmployeeInfo` binds: the detail columns without the photo. */
  const EditColumns: seq<string> :=
    ["EmployeeID", "Address", "City", "Region", "PostalCode", "Country", "HomePhone"]

  const COMMA: WChar := 0x2C
  const SPACE: WChar := 0x20

  /** A `LONG` read of a 32-bit field: the two's-complement value of its bits. */
  function ToLong(u: int): (v: int)
    requires 0 <= u < U32_MOD
    ensures -0x8000_0000 <= v < 0x8000_0000 && (v - u) % U32_MOD == 0
  {
    if u < 0x8000_0000 then u else u - U32_MOD
  }

  /** A 32-bit store of a `LONG` followed by a `LONG` load gives the value back. */
  lemma LongRoundTrip(x: int)
    requires -0x8000_0000 <= x < 0x8000_0000
    ensures ToLong(x % U32_MOD) == x
  {
    if x < 0 {
      assert x % U32_MOD == x + U32_MOD;
    }
  }

  // ---------------------------------------------------------------------
  // The column sets
  // ---------------------------------------------------------------------

  /** A layout that rebinds no column is the same under either blob policy. */
  predicate NoBlobs(cols: seq<ColumnInfo>, plat: Platform) {
    forall i :: 0 <= i < |cols| ==> cols[i].wType != plat.typeBytes
  }

  /** Without a BYTES column the blob policy does not change the layout. */
  lemma {:induction false} LayoutIgnoresPolicy(cols: seq<ColumnInfo>, plat: Platform, obj: ObjectRequest)
    requires plat.alignment > 0 && NoBlobs(cols, plat)
    ensures LayoutOf(cols, plat, KeepBlobs) == LayoutOf(cols, plat, BlobsAsObjects(obj))
    decreases |cols|
  {
    if cols != [] {
      LayoutIgnoresPolicy(cols[..|cols| - 1], plat, obj);
      assert cols[|cols| - 1].wType != plat.typeBytes;
    }
  }

  /** Resolving a prefix of the names resolves to a prefix of the columns. */
  lemma ResolvedPrefix(info: seq<ColumnInfo>, names: seq<string>, n: nat)
    requires n <= |names| && AllFound(info, names)
    ensures AllFound(info, names[..n]) && Resolved(info, names[..n]) == Resolved(info, names)[..n]
  {
  }

  /**
   * The bindings `SaveEmployeeInfo` builds are the first seven that
   * `LoadEmployeeInfo` builds, as long as none of those seven columns is a
   * BYTES column: both look up the same names in the same order, and only a
   * BYTES column is bound differently by the two loops.
   */
  lemma EditBindingsAreDetailPrefix(info: seq<ColumnInfo>, plat: Platform)
    requires plat.Valid() && AllFound(info, DetailColumns)
    requires NoBlobs(Resolved(info, DetailColumns)[..|EditColumns|], plat)
    ensures AllFound(info, EditColumns)
    ensures LayoutOf(Resolved(info, EditColumns), plat, KeepBlobs).bindings
         == LayoutOf(Resolved(info, DetailColumns), plat, BlobsAsObjects(LockBytesForRead)).bindings[..|EditColumns|]
  {
    var n := |EditColumns|;
    assert DetailColumns[..n] == EditColumns;
    ResolvedPrefix(info, DetailColumns, n);
    var cols := Resolved(info, DetailColumns);
    LayoutIgnoresPolicy(cols[..n], plat, LockBytesForRead);
    LayoutPrefix(cols, plat, BlobsAsObjects(LockBytesForRead), n);
  }

  // ---------------------------------------------------------------------
  // The name list
  // ---------------------------------------------------------------------

  /** The display name `wcscpy(last); wcscat(", "); wcscat(first)` builds. */
  function FormatName(last: seq<WChar>, first: seq<WChar>): (r: seq<WChar>) {
    last + [COMMA, SPACE] + first
  }

  /** The index of the first comma of `s`, or `|s|` when there is none. */
  function CommaIndex(s: seq<WChar>): (r: nat)
    ensures r <= |s| && (r < |s| ==> s[r] == COMMA)
    ensures forall i :: 0 <= i < r ==> s[i] != COMMA
  {
    if s == [] then 0 else if s[0] == COMMA then 0 else 1 + CommaIndex(s[1..])
  }

  /** The part of a display name before its first comma. */
  function LastNameOf(name: seq<WChar>): (r: seq<WChar>) {
    name[..CommaIndex(name)]
  }

  /** The part of a display name after its first comma and the space that follows it. */
  function FirstNameOf(name: seq<WChar>): (r: seq<WChar>) {
    if CommaIndex(name) + 2 <= |name| then name[CommaIndex(name) + 2..] else []
  }

  /** A last name without a comma can be told apart from the first name in the display name. */
  lemma FormatNameSplits(last: seq<WChar>, first: seq<WChar>)
    requires forall i :: 0 <= i < |last| ==> last[i] != COMMA
    ensures LastNameOf(FormatName(last, first)) == last
    ensures FirstNameOf(FormatName(last, first)) == first
  {
    var name := FormatName(last, first);
    assert name[|last|] == COMMA;
    assert CommaIndex(name) == |last|;
    assert name[..|last|] == last;
    assert name[|last| + 2..] == first;
  }

  /**
   * The name buffer of `cbMaxLen[1] + cbMaxLen[2] + 2` bytes holds the
   * display name and its terminator whenever each part and its terminator
   * fit the value part it was read from: the two terminators the parts no
   * longer need, and the 2 extra bytes, make room for the `", "`.
   */
  lemma NameFits(last: seq<WChar>, first: seq<WChar>, cbLast: nat, cbFirst: nat)
    requires 2 * (|last| + 1) <= cbLast && 2 * (|first| + 1) <= cbFirst
    ensures 2 * (|FormatName(last, first)| + 1) <= cbLast + cbFirst + 2
  {
  }

  /** The three bindings of the name list fit a record buffer of `size` bytes. */
  predicate NameBindings(bindings: seq<Binding>, size: nat) {
    && |bindings| == |NameColumns|
    && (forall k :: 0 <= k < |bindings| ==> SlotsInOrder(bindings[k]) && bindings[k].End() <= size)
    && bindings[0].cbMaxLen >= 4
  }

  /** The status part of `b` does not say `DBSTATUS_S_ISNULL`. */
  predicate NotNull(img: seq<Byte>, b: Binding, plat: Platform)
    requires SlotsInOrder(b) && b.End() <= |img|
  {
    ReadU32(img, b.obStatus) != plat.statusIsNull
  }

  /** One combobox entry: the item data (the employee ID) and the item text. */
  datatype NameEntry = NameEntry(id: int, name: seq<WChar>)

  /** The entry a fetched row contributes: none when its ID or either name part is NULL. */
  function RowEntry(img: seq<Byte>, bindings: seq<Binding>, plat: Platform): (r: Option<NameEntry>)
    requires NameBindings(bindings, |img|)
  {
    if NotNull(img, bindings[0], plat) && NotNull(img, bindings[1], plat) && NotNull(img, bindings[2], plat) then
      Some(NameEntry(ToLong(ReadU32(img, bindings[0].obValue)),
                     FormatName(ReadText(img, bindings[1]), ReadText(img, bindings[2]))))
    else None
  }

  /** Every row fetched has the size of the record buffer. */
  predicate RowsOfSize(rows: seq<seq<Byte>>, size: nat) {
    forall k :: 0 <= k < |rows| ==> |rows[k]| == size
  }

  /** What each fetched row contributes, row by row. */
  function RowEntries(rows: seq<seq<Byte>>, bindings: seq<Binding>, size: nat, plat: Platform): (r: seq<Option<NameEntry>>)
    requires NameBindings(bindings, size) && RowsOfSize(rows, size)
    ensures |r| == |rows|
  {
    seq(|rows|, k requires 0 <= k < |rows| => RowEntry(rows[k], bindings, plat))
  }

  /** The entries present in `opts`, in order. */
  function Present(opts: seq<Option<NameEntry>>): (r: seq<NameEntry>)
    ensures |r| <= |opts|
  {
    if opts == [] then []
    else
      var prev := Present(opts[..|opts| - 1]);
      match opts[|opts| - 1]
      case Some(e) => prev + [e]
      case None => prev
  }

  /** An entry is present exactly when some element holds it. */
  lemma {:induction false} PresentMembers(opts: seq<Option<NameEntry>>, e: NameEntry)
    ensures e in Present(opts) <==> exists k :: 0 <= k < |opts| && opts[k] == Some(e)
    decreases |opts|
  {
    if opts != [] {
      var init := opts[..|opts| - 1];
      PresentMembers(init, e);
      if exists k :: 0 <= k < |opts| && opts[k] == Some(e) {
        var k :| 0 <= k < |opts| && opts[k] == Some(e);
        if k < |opts| - 1 {
          assert init[k] == opts[k];
        }
      }
      if e in Present(init) {
        var k :| 0 <= k < |init| && init[k] == Some(e);
        assert opts[k] == init[k];
      }
    }
  }

  /** The entries the rows add to the combobox, in fetch order. */
  function NameEntries(rows: seq<seq<Byte>>, bindings: seq<Binding>, size: nat, plat: Platform): (r: seq<NameEntry>)
    requires NameBindings(bindings, size) && RowsOfSize(rows, size)
    ensures |r| <= |rows|
  {
    Present(RowEntries(rows, bindings, size, plat))
  }

  /**
   * The row loop of `PopulateEmployeeNameList`, given the buffer `GetData`
   * leaves for each row.
   */
  method PopulateNameList(rows: seq<seq<Byte>>, bindings: seq<Binding>, size: nat, plat: Platform)
    returns (entries: seq<NameEntry>)
    requires NameBindings(bindings, size) && RowsOfSize(rows, size)
    ensures entries == NameEntries(rows, bindings, size, plat)
  {
    ghost var opts := RowEntries(rows, bindings, size, plat);
    entries := [];
    var i := 0;
    while i < |rows|
      invariant 0 <= i <= |rows|
      invariant entries == Present(opts[..i])
    {
      var entry := EntryOfRow(rows[i], bindings, plat);
      assert opts[..i + 1][..i] == opts[..i];
      if entry.Some? {
        entries := entries + [entry.value];
      }
      i := i + 1;
    }
    assert opts[..|rows|] == opts;
  }

  /**
   * One pass of the row loop: a row whose ID is not NULL and whose last and
   * first name are not NULL yields the display name, with the ID as the
   * item data.
   */
  method EntryOfRow(data: seq<Byte>, bindings: seq<Binding>, plat: Platform) returns (entry: Option<NameEntry>)
    requires NameBindings(bindings, |data|)
    ensures entry == RowEntry(data, bindings, plat)
  {
    entry := None;
    if ReadU32(data, bindings[0].obStatus) != plat.statusIsNull {
      if ReadU32(data, bindings[1].obStatus) != plat.statusIsNull
         && ReadU32(data, bindings[2].obStatus) != plat.statusIsNull {
        var name := ReadText(data, bindings[1]) + [COMMA, SPACE] + ReadText(data, bindings[2]);
        entry := Some(NameEntry(ToLong(ReadU32(data, bindings[0].obValue)), name));
      }
    }
  }

  /** An entry is in the list exactly when some fetched row contributes it. */
  lemma NameEntriesFromRows(rows: seq<seq<Byte>>, bindings: seq<Binding>, size: nat, plat: Platform, e: NameEntry)
    requires NameBindings(bindings, size) && RowsOfSize(rows, size)
    ensures e in NameEntries(rows, bindings, size, plat) <==>
            exists k :: 0 <= k < |rows| && RowEntry(rows[k], bindings, plat) == Some(e)
  {
    var opts := RowEntries(rows, bindings, size, plat);
    PresentMembers(opts, e);
    assert forall k :: 0 <= k < |rows| ==> opts[k] == RowEntry(rows[k], bindings, plat);
  }

  /** A value part holds a terminated string: `wcslen` stops inside it. */
  predicate Terminated(img: seq<Byte>, b: Binding)
    requires b.End() <= |img|
  {
    |ReadText(img, b)| < b.cbMaxLen / 2
  }

  /**
   * When the provider terminates both name parts inside their value parts,
   * every display name of the list, with its terminator, fits the
   * `cbMaxLen[1] + cbMaxLen[2] + 2`-byte name buffer.
   */
  lemma NameEntriesFit(rows: seq<seq<Byte>>, bindings: seq<Binding>, size: nat, plat: Platform)
    requires NameBindings(bindings, size) && RowsOfSize(rows, size)
    requires forall k :: 0 <= k < |rows| ==> Terminated(rows[k], bindings[1]) && Terminated(rows[k], bindings[2])
    ensures forall e :: e in NameEntries(rows, bindings, size, plat) ==>
      2 * (|e.name| + 1) <= bindings[1].cbMaxLen + bindings[2].cbMaxLen + 2
  {
    forall e | e in NameEntries(rows, bindings, size, plat)
      ensures 2 * (|e.name| + 1) <= bindings[1].cbMaxLen + bindings[2].cbMaxLen + 2
    {
      NameEntriesFromRows(rows, bindings, size, plat, e);
      var k :| 0 <= k < |rows| && RowEntry(rows[k], bindings, plat) == Some(e);
      NameFits(ReadText(rows[k], bindings[1]), ReadText(rows[k], bindings[2]), bindings[1].cbMaxLen, bindings[2].cbMaxLen);
    }
  }

  // ---------------------------------------------------------------------
  // The detail view
  // ---------------------------------------------------------------------

  /**
   * The part of a fetched row `LoadEmployeeInfo` shows: the ID as an
   * unsigned number, and the six text fields; `None` for each one the
   * dialog leaves cleared.
   */
  datatype DetailView = DetailView(id: Option<int>, fields: seq<Option<seq<WChar>>>)

  /** The status part of `b` is not `DBSTATUS_S_ISNULL` and is `DBSTATUS_S_OK`. */
  predicate Shown(img: seq<Byte>, b: Binding, plat: Platform)
    requires SlotsInOrder(b) && b.End() <= |img|
  {
    var status := ReadU32(img, b.obStatus);
    status != plat.statusIsNull && status == plat.statusOk
  }

  /** The key column and the six text columns fit a record buffer of `size` bytes. */
  predicate ViewBindings(bindings: seq<Binding>, size: nat) {
    && |bindings| > EDITED
    && (forall k :: 0 <= k <= EDITED ==> SlotsInOrder(bindings[k]) && bindings[k].End() <= size)
    && bindings[0].cbMaxLen >= 4
  }

  /** What the dialog shows after `ClearEmployeeInfo` and the seven guarded updates. */
  function LoadView(img: seq<Byte>, bindings: seq<Binding>, plat: Platform): (v: DetailView)
    requires ViewBindings(bindings, |img|)
    ensures |v.fields| == EDITED
  {
    DetailView(
      if Shown(img, bindings[0], plat) then Some(ReadU32(img, bindings[0].obValue)) else None,
      seq(EDITED, k requires 0 <= k < EDITED =>
        if Shown(img, bindings[k + 1], plat) then Some(ReadText(img, bindings[k + 1])) else None))
  }

  /** Whether `LoadEmployeePhoto` is called: exactly when the photo column's status is OK. */
  function PhotoShown(img: seq<Byte>, bindings: seq<Binding>, plat: Platform): (r: bool)
    requires plat.Valid()
    requires |bindings| == |DetailColumns| && SlotsInOrder(bindings[7]) && bindings[7].End() <= |img|
    ensures r <==> ReadU32(img, bindings[7].obStatus) == plat.statusOk
  {
    Shown(img, bindings[7], plat)
  }

  /** The `DBSTATUS_S_ISNULL` test of each update is implied by the `DBSTATUS_S_OK` test. */
  lemma ShownIsOk(img: seq<Byte>, b: Binding, plat: Platform)
    requires plat.Valid() && SlotsInOrder(b) && b.End() <= |img|
    ensures Shown(img, b, plat) <==> ReadU32(img, b.obStatus) == plat.statusOk
  {
  }

  /** A field is shown exactly when its status is OK, and then it shows the text of its value part. */
  lemma LoadViewFields(img: seq<Byte>, bindings: seq<Binding>, plat: Platform, k: nat)
    requires plat.Valid() && ViewBindings(bindings, |img|) && k < EDITED
    ensures var v := LoadView(img, bindings, plat);
      && (v.fields[k].Some? <==> ReadU32(img, bindings[k + 1].obStatus) == plat.statusOk)
      && (v.fields[k].Some? ==> v.fields[k].value == ReadText(img, bindings[k + 1]))
  {
    ShownIsOk(img, bindings[k + 1], plat);
  }

  /**
   * Reading back the buffer `SaveEmployeeInfo` hands to `SetData` the way
   * `LoadEmployeeInfo` does shows the employee ID (modulo 2^32) and each
   * dialog text cut to what its value part holds.
   */
  lemma SavedThenShown(size: nat, bindings: seq<Binding>, id: int, texts: seq<seq<WChar>>, plat: Platform)
    requires plat.Valid() && EditBindings(bindings, size, plat) && |texts| == EDITED
    requires forall k :: 0 <= k < EDITED ==> NoNul(texts[k])
    ensures ViewBindings(bindings, size)
    ensures var v := LoadView(SavedImage(size, bindings, id, texts, plat), bindings, plat);
      && v.id == Some(id % U32_MOD)
      && forall k :: 0 <= k < EDITED ==> v.fields[k] == Some(StoredText(texts[k], bindings[k + 1].cbMaxLen))
  {
    SavedIdShown(size, bindings, id, texts, plat);
    forall k | 0 <= k < EDITED
      ensures LoadView(SavedImage(size, bindings, id, texts, plat), bindings, plat).fields[k]
           == Some(StoredText(texts[k], bindings[k + 1].cbMaxLen))
    {
      SavedFieldShown(size, bindings, id, texts, plat, k);
    }
  }

  /** The ID column of the saved buffer is shown, as the ID modulo 2^32. */
  lemma SavedIdShown(size: nat, bindings: seq<Binding>, id: int, texts: seq<seq<WChar>>, plat: Platform)
    requires plat.Valid() && EditBindings(bindings, size, plat) && |texts| == EDITED
    ensures ViewBindings(bindings, size)
    ensures LoadView(SavedImage(size, bindings, id, texts, plat), bindings, plat).id == Some(id % U32_MOD)
  {
    SavedImageKey(size, bindings, id, texts, plat);
    IntSlotReads(SavedImage(size, bindings, id, texts, plat), bindings[0], id, plat);
  }

  /** Edited column `k + 1` of the saved buffer is shown, holding its dialog text as stored. */
  lemma SavedFieldShown(size: nat, bindings: seq<Binding>, id: int, texts: seq<seq<WChar>>, plat: Platform, k: nat)
    requires plat.Valid() && EditBindings(bindings, size, plat) && |texts| == EDITED && k < EDITED
    requires NoNul(texts[k])
    ensures ViewBindings(bindings, size)
    ensures LoadView(SavedImage(size, bindings, id, texts, plat), bindings, plat).fields[k]
         == Some(StoredText(texts[k], bindings[k + 1].cbMaxLen))
  {
    SavedImageText(size, bindings, id, texts, plat, k + 1);
  }
}
