/**
 * The column metadata the provider reports and the bindings the sample
 * builds from it, together with the header-defined values they depend on.
 */
module OleDb {
  import opened Wrappers
  import opened Bytes

  /**
   * Values defined in headers that are not part of this model: the
   * alignment used by `ROUND_UP(x, COLUMN_ALIGNVAL)`, `sizeof(IUnknown*)`,
   * the `DBTYPE_*` tags the code switches on, and the two `DBSTATUS_*`
   * values it stores and tests.
   */
  datatype Platform = Platform(
    alignment: nat,
    pointerSize: nat,
    typeWStr: int,
    typeBytes: int,
    typeIUnknown: int,
    typeI4: int,
    statusOk: int,
    statusIsNull: int)
  {
    /** The switch labels are distinct constants and statuses are 32-bit values. */
    predicate Valid() {
      && alignment > 0
      && typeWStr != typeBytes && typeWStr != typeIUnknown && typeWStr != typeI4
      && typeBytes != typeIUnknown && typeBytes != typeI4 && typeIUnknown != typeI4
      && 0 <= statusOk < U32_MOD && 0 <= statusIsNull < U32_MOD
      && statusOk != statusIsNull
    }
  }

  /** Size of the length part (`sizeof(ULONG)`) and of the status part (`sizeof(DBSTATUS)`). */
  const LENGTH_SIZE: nat := 4
  const STATUS_SIZE: nat := 4

  /** One DBCOLUMNINFO entry: the fields of it the sample reads. */
  datatype ColumnInfo = ColumnInfo(
    name: Option<string>,
    ordinal: nat,
    wType: int,
    columnSize: nat,
    precision: int,
    scale: int)

  /**
   * The DBOBJECT a binding points to: none, a writable ISequentialStream
   * (used while inserting rows) or a readable ILockBytes (used while loading
   * one employee).
   */
  datatype ObjectRequest = NoObject | StreamForWrite | LockBytesForRead

  /**
   * One DBBINDING entry: the parts the sample sets from the column metadata.
   * The parts it sets to the same constant for every binding (`dwPart`,
   * `dwMemOwner`, `dwFlags`, `pTypeInfo`, `pBindExt`) are not represented.
   */
  datatype Binding = Binding(
    ordinal: nat,
    obLength: nat,
    obStatus: nat,
    obValue: nat,
    cbMaxLen: nat,
    wType: int,
    precision: int,
    scale: int,
    obj: ObjectRequest)
  {
    /** One past the last byte of the value part. */
    function End(): nat {
      obValue + cbMaxLen
    }
  }

  /** The three parts of a binding sit in the order length, status, value with no gap. */
  predicate SlotsInOrder(b: Binding) {
    b.obStatus == b.obLength + LENGTH_SIZE && b.obValue == b.obStatus + STATUS_SIZE
  }

  /**
   * A set of bindings that can be used to read or write a record buffer of
   * `size` bytes: every binding's parts are in order and inside the buffer,
   * a text or 4-byte integer value part is big enough for what the sample
   * stores there, and the byte ranges of different bindings do not overlap.
   */
  predicate WellFormed(bindings: seq<Binding>, size: nat, plat: Platform) {
    && (forall i :: 0 <= i < |bindings| ==> SlotsInOrder(bindings[i]) && bindings[i].End() <= size)
    && (forall i :: 0 <= i < |bindings| && bindings[i].wType == plat.typeWStr ==> bindings[i].cbMaxLen >= 2)
    && (forall i :: 0 <= i < |bindings| && bindings[i].wType == plat.typeI4 ==> bindings[i].cbMaxLen >= 4)
    && (forall i, j :: 0 <= i < j < |bindings| ==> bindings[i].End() <= bindings[j].obLength)
  }
}
