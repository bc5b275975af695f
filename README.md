# Northwind OLE DB sample: record buffers, bindings and the employee dialog

The sample keeps the Northwind employees in an embedded OLE DB store. Each of its
four database operations follows the same pattern:

- It gets the column metadata of the `Employees` rowset.
- It builds a `DBBINDING` array that gives every bound column a 4-byte length part,
  a 4-byte status part and a value part. The parts of all columns are placed one
  after another in a single flat record buffer.
- It moves data through that buffer:
  - `InsertEmployeeInfo` writes the sample rows into it;
  - `PopulateEmployeeNameList` reads "Last, First" display names out of it;
  - `LoadEmployeeInfo` uses it as a seek key and then shows the fetched row;
  - `SaveEmployeeInfo` uses it as a seek key, then writes the dialog's edited
    fields into it and hands it to `SetData`.

This project models the provider-independent part of that logic:

- the layout computation;
- the case-insensitive column lookup;
- the byte-level stores into the record buffer and the reads back out of it;
- the combobox entries the name list produces;
- what the detail dialog shows.

Modules:

- `Bytes`: bytes and WCHARs, and little-endian 32-bit and 16-bit stores. A store is
  modelled as a splice into a `seq<Byte>`; `WriteBytes` performs it in place on an
  `array<Byte>`.
- `OleDb`: `ColumnInfo` (DBCOLUMNINFO) and `Binding` (DBBINDING). It also holds
  `Platform`, which carries the header-defined values: `COLUMN_ALIGNVAL`,
  `sizeof(IUnknown*)`, the `DBTYPE_*` tags and the `DBSTATUS_*` values. The same
  module defines when a binding set is usable on a buffer (`WellFormed`).
- `Catalog`: `GetColumnOrdinal`, with `_wcsicmp` modelled as ASCII case folding.
- `Layout`: the binding loops as `array`-filling methods. They are proved against
  the prefix-recursive specification `LayoutOf`, and the layout lemmas (order,
  alignment, no overlap, coverage, sizes by type) are proved about `LayoutOf`.
- `Record`: the row fill of `InsertEmployeeInfo` as a method on the byte array. It
  is specified by `RowImage`, and the lemmas say what each column's slot then holds.
- `SeekAndSave`: the seek key, and the edited-field fill of `SaveEmployeeInfo`.
- `Employees`:
  - the three named column sets, and how the detail and edit sets relate;
  - the name-list loop and the display-name format;
  - the detail view;
  - the save-then-load agreement.

Two operations appear twice: once as a method that follows the source statement by
statement, and once as the function that specifies it. The function is the
reference definition, and the properties are proved about it. The method's
`ensures` ties it to the function.

- `Layout.BindingFor` is the loop body's type switch. Its reference is
  `Layout.BindColumn`, and `Layout.LayoutBindsEachColumn` states that function's
  fields.
- `Employees.EntryOfRow` is the nested NULL tests and the `wcscpy`/`wcscat` of one
  pass of the name-list loop. Its reference is `Employees.RowEntry`, which
  `Employees.NameEntriesFromRows` and `Employees.NameEntriesFit` build on.

## Model

| member | source | states |
|---|---|---|
| Bytes.U32RoundTrip | Employees.cpp:779-791 | a 32-bit little-endian store followed by a 32-bit load gives the stored value modulo 2^32 |
| Bytes.EncodeWAppend | Employees.cpp:766-776 | the bytes of a concatenation of wide strings are the concatenation of their bytes |
| Bytes.SpliceCommute | Employees.cpp:1606-1610 | two stores to disjoint byte ranges give the same buffer in either order |
| Bytes.WriteBytes | Employees.cpp:766-791 | storing bytes at an offset of the buffer changes exactly that range, to those bytes |
| Catalog.FirstMatchFrom | Employees.cpp:2317-2329 | the index it returns is a named entry matching the query case-insensitively, with no match before it; `None` means no entry in range matches |
| Catalog.GetColumnOrdinal | Employees.cpp:2315-2330 | returns true exactly when one of the first `dwNumCols` entries has a non-null name equal to the query up to case; the ordinal is then that of the first such entry; on false the ordinal is left as it was |
| Catalog.FirstIsUnique | Employees.cpp:2317-2324 | a matching entry with no match before it is the one the lookup returns |
| Catalog.LookupIgnoresCase | Employees.cpp:2321 | two queries equal up to case find the same column |
| Layout.RoundUpIsLeastMultiple | Employees.cpp:705 | `ROUND_UP(x, align)` is a multiple of `align`, at least `x` and less than `x + align` |
| Layout.BindingFor | Employees.cpp:661-696 | the binding the loop body writes is the column bound at the running offset under the type switch (`BindColumn`) |
| Layout.LayoutPrefix | Employees.cpp:659-706 | laying out the first n columns gives the first n bindings of the whole layout, so each loop pass only appends |
| Layout.LayoutAt | Employees.cpp:668-696 | binding i is column i bound at the offset left by the first i columns |
| Layout.LayoutOffsetAfter | Employees.cpp:701-705 | the running offset after column i is `ROUND_UP(obValue + cbMaxLen, align)` of binding i |
| Layout.LayoutBindsEachColumn | Employees.cpp:661-696 | every binding copies its ordinal, precision and scale from its column and has `obStatus = obLength + 4`, `obValue = obStatus + 4`; a WSTR column gets `2 * (columnSize + 1)` bytes; a BYTES column rebound as an object becomes IUNKNOWN with `sizeof(IUnknown*)` bytes and the object request; any other column gets `columnSize` bytes |
| Layout.LayoutOffsets | Employees.cpp:654-705 | the first binding starts at 0, each next one at `ROUND_UP` of the previous value end, and the buffer size is `ROUND_UP` of the last value end |
| Layout.LayoutAligned | Employees.cpp:705 | every binding and the buffer size are multiples of the alignment |
| Layout.LayoutDisjoint | Employees.cpp:668-705 | each binding starts at or after the end of every earlier binding's value part, and the buffer size covers every value part |
| Layout.LayoutWellFormed | Employees.cpp:659-731 | the computed bindings are well formed on a buffer of the computed size: parts in order, inside the buffer, pairwise disjoint, text and integer parts wide enough |
| Layout.BuildRowBindings | Employees.cpp:637-706 | with no columns, nothing is built; otherwise there are `ulNumCols - 1` bindings, equal to the layout of the columns after the bookmark with BLOBs rebound as writable streams, and the final offset is that layout's size |
| Layout.RowBindingsSkipBookmark | Employees.cpp:645-684 | insert binding i takes its ordinal from column i + 1, and its type too except that BYTES becomes IUNKNOWN |
| Layout.BuildNamedBindings | Employees.cpp:1158-1194 | fails with no columns exactly when the metadata is empty; otherwise succeeds exactly when every requested name is found; on success the bindings are the layout of the resolved columns in name order; on failure the missing name is the first one not found |
| Layout.BindNextName | Employees.cpp:1160-1193 | one loop pass: it succeeds exactly when the name is found, and then extends the bindings and the offset to the layout of one more resolved column |
| Layout.NamedLayoutStep | Employees.cpp:1166-1193 | resolving one more name appends that column's binding at the running offset and advances the offset to its rounded end |
| Layout.ResolvedStep | Employees.cpp:1160-1171 | resolving one more name appends the column it names |
| Record.StoredText | Employees.cpp:766-776 | the stored text is the prefix of the input of length `min(len, cbMaxLen/2 - 1)`, and with its terminator it fits `cbMaxLen` bytes |
| Record.ReadText | Employees.cpp:779 | `wcslen` of a value part counts at most `cbMaxLen/2` characters, none of them a terminator |
| Record.WriteLength | Employees.cpp:779-780 | setting a length part and an OK status changes no byte outside the column's slot |
| Record.WriteMeasure | Employees.cpp:779-780 | setting the length from `wcslen` of the value part changes no byte outside the slot |
| Record.WriteText | Employees.cpp:766-781 | writing a text column changes no byte outside its slot |
| Record.WriteInt | Employees.cpp:787-791 | writing an integer column changes no byte outside its slot |
| Record.WriteColumn | Employees.cpp:762-796 | writing a column of any type changes no byte outside its slot |
| Record.CopyText | Employees.cpp:766-776 | the `wcsncpy`-and-terminate branch and the `wcscpy` branch both leave exactly the stored prefix and a terminator in the value part, and nothing else changes |
| Record.MeasureField | Employees.cpp:779-780 | the array afterwards is the buffer with the length part set from `wcslen` and the status OK |
| Record.StoreText | Employees.cpp:764-782 | the WSTR case leaves the array as `WriteText` describes |
| Record.StoreInt | Employees.cpp:786-791 | the I4 case stores the value, the length 4 and an OK status, as `WriteInt` describes |
| Record.FillRecord | Employees.cpp:756-797 | after the memset and the column loop, the array holds `RowImage` of the row |
| Record.ReadCharsStored | Employees.cpp:779 | bytes holding a terminator-free string and a terminator read back as that string |
| Record.EncodedHead | Employees.cpp:779 | the first two bytes of an encoded string are its first character |
| Record.ReadCharsAgree | Employees.cpp:779 | `wcslen` reads only the bytes of the range it scans |
| Record.ReadTextOnlyReadsSlot | Employees.cpp:779 | the text of a column depends only on the bytes of its slot |
| Record.ReadStoredText | Employees.cpp:766-779 | a value part holding a string and its terminator reads back as that string |
| Record.TextSlotOnlyReadsSlot | Employees.cpp:766-781 | whether a slot holds a given text column depends only on its own bytes |
| Record.IntSlotOnlyReadsSlot | Employees.cpp:787-791 | whether a slot holds a given integer column depends only on its own bytes |
| Record.TextSlotReads | Employees.cpp:766-781 | a text slot reads back as the stored prefix, with length part twice its count and status OK |
| Record.IntSlotReads | Employees.cpp:787-791 | an integer slot reads back as the value modulo 2^32, with length 4 and status OK |
| Record.TextValueContents | Employees.cpp:766-776 | after a text write the value part holds the stored prefix and a terminator |
| Record.TextLengthContents | Employees.cpp:779 | after a text write the length part holds twice the stored count |
| Record.TextSlotContents | Employees.cpp:756-781 | writing a text column into a zeroed slot leaves the prefix, the terminator, zeros to the end of the value part, the length and the OK status |
| Record.IntSlotContents | Employees.cpp:756-791 | writing an integer column into a zeroed slot leaves the value, zeros after it, the length 4 and the OK status |
| Record.FillColumnsOutside | Employees.cpp:756-797 | a byte outside the slots of the columns written so far is still zero |
| Record.FillColumnsKeepsSlot | Employees.cpp:758-797 | the columns written after column j do not change column j's slot |
| Record.FillColumnsFrom | Employees.cpp:758-797 | writing columns lo to n - 1 leaves every byte outside their slots as it was |
| Record.FillColumnsOne | Employees.cpp:758-797 | writing one column leaves every byte outside its slot as it was |
| Record.RowImageSlot | Employees.cpp:756-797 | in the filled row each column's slot holds what writing that column alone into zeros gives, so the columns do not interfere |
| Record.RowImageTextSlot | Employees.cpp:764-782 | every text column of a filled row holds its string in stored form |
| Record.RowImageText | Employees.cpp:764-782 | a text column of a filled row holds the prefix of length `min(len, cbMaxLen/2 - 1)`, and it reads back; its length part is twice the stored count and its status is OK |
| Record.RowImageInt | Employees.cpp:786-791 | an integer column holds `_wtoi` of its string truncated to 32 bits, length 4 and status OK |
| Record.RowImageZeroElsewhere | Employees.cpp:756-797 | columns neither text nor integer (the photo among them) and all bytes outside every slot stay zero |
| SeekAndSave.SetSeekKey | Employees.cpp:1603-1610 | the memset and the length, status and ID stores, in source order, leave the array equal to `SeekKey` |
| SeekAndSave.SeekKeyReads | Employees.cpp:2177-2182 | the key column of the seek key reads as the ID modulo 2^32 with length 4 and status OK, and every other byte is zero |
| SeekAndSave.DialogText | Employees.cpp:2203-2208 | `GetDlgItemText` with a count of n characters stores at most n - 1 characters and a terminator |
| SeekAndSave.AsWrittenStore | Employees.cpp:2203-2208 | passing `cbMaxLen` as the count stores `2 * (min(len, cbMaxLen - 1) + 1)` bytes |
| SeekAndSave.DialogStore | Employees.cpp:2203-2208 | with the count in characters the store fits the value part |
| SeekAndSave.AsWrittenOverrun | Employees.cpp:2203-2208 | as written, the copy stays inside the value part exactly when the text is shorter than `cbMaxLen / 2` characters |
| SeekAndSave.AsWrittenHomePhoneOverrun | Employees.cpp:2208 | for a 24-character column (50-byte value part), a 25-character text is stored past the slot end |
| SeekAndSave.DialogStoreIsStoredText | Employees.cpp:2203-2208 | the corrected copy stores exactly the prefix and terminator the row fill stores |
| SeekAndSave.AsWrittenAgreesWhenShort | Employees.cpp:2203-2208 | for texts that fit, the code as written and the corrected count store the same bytes |
| SeekAndSave.CopyDialogText | Employees.cpp:2203 | with the corrected count `cbMaxLen / 2`, one dialog copy changes only the value part it targets, where it stores the text as `DialogStore` gives it |
| SeekAndSave.CopyDialogTexts | Employees.cpp:2203-2208 | with the corrected count `cbMaxLen / 2`, the six copies leave the array as `DialogFields` describes |
| SeekAndSave.FillEditedFields | Employees.cpp:2203-2214 | with the corrected count `cbMaxLen / 2`, the copies and the length loop leave the array as `MeasureFields` of `DialogFields` |
| SeekAndSave.MeasureEditedFields | Employees.cpp:2210-2214 | the loop over columns 1 to 6 sets each length from `wcslen` and each status to OK, one after the other |
| SeekAndSave.MeasureEditedField | Employees.cpp:2212-2213 | one pass of the length loop sets the next column |
| SeekAndSave.PrepareSave | Employees.cpp:2175-2214 | when the seek finds the row the buffer is `SavedImage` (edited fields copied with the corrected count `cbMaxLen / 2`), otherwise it stays the seek key |
| SeekAndSave.DialogFieldsFrom | Employees.cpp:2203-2208 | with the corrected count `cbMaxLen / 2`, the copies into later columns leave bytes outside their slots as they were |
| SeekAndSave.DialogFieldsOne | Employees.cpp:2203-2208 | with the corrected count `cbMaxLen / 2`, one copy leaves bytes outside its slot as they were |
| SeekAndSave.MeasureFieldsFrom | Employees.cpp:2210-2214 | the later passes of the length loop leave bytes outside their slots as they were |
| SeekAndSave.MeasureFieldsOne | Employees.cpp:2212-2213 | one pass leaves bytes outside its slot as they were |
| SeekAndSave.WriteLengthOnlyReadsSlot | Employees.cpp:2212-2213 | the bytes of a slot after a length-and-status store depend only on the slot's bytes before it |
| SeekAndSave.WriteMeasureOnlyReadsSlot | Employees.cpp:2212-2213 | the same holds when the length comes from `wcslen` of the value part |
| SeekAndSave.EditApart | Employees.cpp:2104-2143 | the key and edited bindings fit the buffer and no two of their slots overlap |
| SeekAndSave.SlotApartMiss | Employees.cpp:2104-2143 | a byte of one slot lies in no other key or edited slot |
| SeekAndSave.DialogBeforeSlot | Employees.cpp:2203-2208 | with the corrected count `cbMaxLen / 2`, the copies before column i + 1 do not change its slot |
| SeekAndSave.DialogAfterSlot | Employees.cpp:2203-2208 | with the corrected count `cbMaxLen / 2`, the copies after column j do not change its slot |
| SeekAndSave.DialogFieldsSlot | Employees.cpp:2203-2208 | with the corrected count `cbMaxLen / 2`, after all copies column j's slot is the seek key with only column j's copy |
| SeekAndSave.MeasureFieldsSlot | Employees.cpp:2210-2214 | after the loop, column j's slot is as if only column j were measured |
| SeekAndSave.MeasuredBeforeSlot | Employees.cpp:2210-2214 | the passes before column i + 1 do not change its slot |
| SeekAndSave.MeasuredAfterSlot | Employees.cpp:2210-2214 | the passes after column j do not change its slot |
| SeekAndSave.SavedImageSlot | Employees.cpp:2177-2214 | with the corrected count `cbMaxLen / 2`, each edited slot of the saved buffer holds exactly what the row fill writes for that text into the zeroed key buffer |
| SeekAndSave.SavedImageTextSlot | Employees.cpp:2177-2214 | with the corrected count `cbMaxLen / 2`, each edited slot holds its dialog text in stored form |
| SeekAndSave.SavedImageText | Employees.cpp:2203-2214 | with the corrected count `cbMaxLen / 2`, each edited column reads back as the dialog text cut to `cbMaxLen/2 - 1` characters, with length twice that count and status OK |
| SeekAndSave.SavedImageKey | Employees.cpp:2177-2218 | the key column of the saved buffer still holds the ID modulo 2^32, with length 4 and status OK |
| SeekAndSave.SavedImageZeroElsewhere | Employees.cpp:2177-2214 | with the corrected count `cbMaxLen / 2`, bytes outside the key and edited slots stay zero |
| SeekAndSave.EditedFieldsKeep | Employees.cpp:2203-2214 | with the corrected count `cbMaxLen / 2`, filling the edited fields leaves every byte outside their slots as it was |
| Employees.ToLong | Employees.cpp:1277 | a `LONG` read of a 32-bit field lies in the signed 32-bit range and is congruent to the bits modulo 2^32 |
| Employees.LongRoundTrip | Employees.cpp:1277 | a signed 32-bit ID stored and read back as `LONG` is unchanged |
| Employees.LayoutIgnoresPolicy | Employees.cpp:1185-1193 | with no BYTES column, the loops with and without the BLOB case give the same layout |
| Employees.ResolvedPrefix | Employees.cpp:1514-1521 | resolving a prefix of the names resolves a prefix of the columns |
| Employees.EditBindingsAreDetailPrefix | Employees.cpp:2104-2143 | if none of the first seven detail columns is BYTES, the save bindings are the first seven load bindings |
| Employees.FormatNameSplits | Employees.cpp:1266-1268 | for a comma-free last name, the display name splits back into the last and first names |
| Employees.NameFits | Employees.cpp:1229 | when each part and its terminator fit their value parts, the display name and its terminator fit the `cbMaxLen[1] + cbMaxLen[2] + 2`-byte buffer |
| Employees.PresentMembers | Employees.cpp:1270-1281 | an entry is kept exactly when some row yields it |
| Employees.PopulateNameList | Employees.cpp:1239-1295 | the row loop produces, in fetch order, the entries of the rows whose ID and name parts are not NULL |
| Employees.EntryOfRow | Employees.cpp:1254-1281 | a row yields an entry exactly when its ID, last-name and first-name statuses are not `DBSTATUS_S_ISNULL`; the entry is `Last + ", " + First` with the `LONG` ID as item data |
| Employees.NameEntriesFromRows | Employees.cpp:1239-1295 | an entry is in the list exactly when some fetched row yields it |
| Employees.NameEntriesFit | Employees.cpp:1229-1268 | when the provider terminates both name parts inside their value parts, every entry of the list, with its terminator, fits the name buffer |
| Employees.PhotoShown | Employees.cpp:1688-1693 | the photo is loaded exactly when the photo column's status is OK (the ISNULL test adds nothing, because the two status values differ) |
| Employees.ShownIsOk | Employees.cpp:1644-1684 | the "not ISNULL and OK" test of each update is the same as the OK test |
| Employees.LoadViewFields | Employees.cpp:1650-1684 | a text field is shown exactly when its status is OK, and it then shows the text of its value part |
| Employees.SavedThenShown | Employees.cpp:2177-2218 | with the corrected count `cbMaxLen / 2`, reading the saved buffer back as `LoadEmployeeInfo` does shows the ID modulo 2^32 and each dialog text cut to what its value part holds |
| Employees.SavedIdShown | Employees.cpp:1644-1648 | the saved buffer shows the ID modulo 2^32 |
| Employees.SavedFieldShown | Employees.cpp:1650-1684 | with the corrected count `cbMaxLen / 2`, each edited column of the saved buffer is shown, holding its dialog text in stored form |

## Left out

- The OLE DB and COM calls are given as their effect, not modelled. This covers
  `CoCreateInstance`, the data source and session, `OpenRowset`, `Seek`,
  `GetNextRows`, `GetData`, `InsertRow`, `SetData`, transactions, accessor creation
  and release, and memory allocation with its `E_OUTOFMEMORY` paths. They belong to
  the external engine.
- The rows the name list reads are a parameter: each is the buffer `GetData` leaves.
  The loop's exit on a failed `GetData` or `ReleaseRows` is not modelled.
- Whether the seek found a row is a parameter of `PrepareSave`. The row
  `LoadEmployeeInfo` shows is any buffer.
- The Win32 dialog and combobox are left out. The combobox is represented by the
  list of entries added to it:
  - the order it displays them in (it may sort) is not modelled;
  - the `CB_ERR` result of `CB_ADDSTRING` is not modelled.
  The dialog texts `SaveEmployeeInfo` reads are a parameter. `SetDlgItemInt` with
  `bSigned = 0` is modelled by showing the unsigned value of the ID field.
- The texts the dialog returns are assumed to contain no NUL character.
  `GetDlgItemText` cannot return one.
- `LoadEmployeePhoto`, `SaveEmployeePhoto`, `ShowEmployeePhoto` and the bitmap work
  (Employees.cpp:969-1029 and 1700-1900) are foreign calls and are not modelled.
  The only decision in them, accepting only 24-bit bitmaps (Employees.cpp:1830), is
  left out with them. `PhotoShown` models only whether the photo is loaded.
- The `DBTYPE_IUNKNOWN` case of the row fill records the photo column
  (`dwPhotoCol`) for the later stream write. The model leaves that column's slot
  zero and does not model the stream.
- `_wtoi` is the function parameter `parse`. `_wcsicmp` is ASCII case folding; locale
  behaviour is not modelled.
- `ROUND_UP`, `COLUMN_ALIGNVAL`, `sizeof(IUnknown*)`, the `DBTYPE_*` tags and the
  `DBSTATUS_*` values come from headers that are not part of this model. They are
  fields of `Platform`. `ROUND_UP` is taken to be the least multiple of the alignment
  that is at least its argument.
- The constant `DBBINDING` fields are not represented: `dwPart`, `dwMemOwner`,
  `dwFlags`, `pTypeInfo` and `pBindExt`. The `DBOBJECT` is represented only by its
  kind.
- `Layout.LayoutOf`: the running `dwOffset` is a `DWORD`, and its 32-bit wrap-around
  is not modelled. Offsets are unbounded naturals.
- Integer stores are modelled as little-endian, as on the x86 and ARM targets of the
  sample.
- `Record.ReadText`: `wcslen` on a value part is modelled as stopping at the end of
  that value part when no terminator is found inside it. This is weaker than C,
  where it would read on. The fill lemmas always put a terminator inside.
- `Employees.NameEntriesFit`: this lemma assumes that the provider terminates each
  name part inside its value part. `GetData` is not modelled, so this is a
  precondition.
- `SeekAndSave.SavedImage`: the model of the save uses the corrected character
  count `cbMaxLen / 2` (see Findings). The code as written is modelled by
  `SeekAndSave.AsWrittenStore`. So the frame and contents lemmas about the saved
  buffer hold for the corrected save only. As written, a dialog text of
  `cbMaxLen / 2` characters or more leaves its slot (`SeekAndSave.AsWrittenOverrun`).
- `SeekAndSave.CopyDialogText`: it copies with the corrected count `cbMaxLen / 2`.
  The copy at Employees.cpp:2203-2208 passes `cbMaxLen`; its bytes are
  `SeekAndSave.AsWrittenStore`, and they can run past the value part.
- `SeekAndSave.CopyDialogTexts`: its six copies use the corrected count. The code
  as written stores `SeekAndSave.AsWrittenStore` at each value part instead.
- `SeekAndSave.FillEditedFields`: the copies it measures are the corrected ones.
  With the code as written, a long text's `SeekAndSave.AsWrittenStore` can
  overwrite the length part of the next column before the length loop runs.
- `SeekAndSave.PrepareSave`: the buffer it promises is the corrected
  `SeekAndSave.SavedImage`. The as-written stores are `SeekAndSave.AsWrittenStore`,
  and the buffer they leave is not modelled.
- `Layout.LayoutWellFormed`: it requires every `DBTYPE_I4` column to report a
  `columnSize` of at least 4, so that the 4-byte store at Employees.cpp:788 fits its
  value part. The code stores 4 bytes whatever `cbMaxLen` is. OLE DB reports the
  size of a fixed-length type as its byte width, so the requirement holds for any
  conforming provider.
- Layout.BuildNamedBindings: it requires that ordinals are indices
  (`OrdinalsAreIndices`), because it reads the metadata entry at the ordinal found,
  as Employees.cpp:1171 does. The code assumes the same without checking it.
- northwindoledb.cpp and northwindoledb.h are not modelled. They hold the message
  loop, the window and dialog procedures, and globals.

## Findings

| source | as written | input that shows it | evidently intended | confidence | as-written member | corrected member |
|---|---|---|---|---|---|---|
| Employees.cpp:2203-2208 | `GetDlgItemText` gets `prgBinding[k].cbMaxLen`, a byte count, as its buffer size in characters, so it may store up to `2 * cbMaxLen` bytes into a value part of `cbMaxLen` bytes | a HomePhone column of 24 characters (`cbMaxLen = 50`) and a 25-character dialog text: 52 bytes are stored into a 50-byte value part; HomePhone is the last column bound, so the 2 extra bytes can lie past the end of the allocated record buffer | pass `cbMaxLen / sizeof(WCHAR)`, so the text is cut to `cbMaxLen/2 - 1` characters plus a terminator, as the row fill does | high (not executed) | SeekAndSave.AsWrittenHomePhoneOverrun | SeekAndSave.DialogStoreIsStoredText |
