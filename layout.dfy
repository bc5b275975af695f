/**
 * The row-buffer layout computed before every accessor is created: each
 * bound column gets a 4-byte length part, a 4-byte status part and a value
 * part, in that order, and the running offset is rounded up to the column
 * alignment after each column. The final offset is the buffer size.
 */
module Layout {
  import opened Wrappers
  import opened OleDb
  import opened Catalog

  /** `ROUND_UP(x, align)`: the smallest multiple of `align` that is at least `x`. */
  function RoundUp(x: nat, align: nat): (r: nat)
    requires align > 0
  {
    ((x + align - 1) / align) * align
  }

  lemma RoundUpIsLeastMultiple(x: nat, align: nat)
    requires align > 0
    ensures RoundUp(x, align) % align == 0
    ensures x <= RoundUp(x, align) < x + align
  {
    var q := (x + align - 1) / align;
    var r := (x + align - 1) % align;
    assert x + align - 1 == q * align + r;
    assert RoundUp(x, align) == q * align;
    assert (q * align) % align == 0 by {
      MultipleMod(q, align);
    }
  }

  lemma MultipleMod(q: nat, align: nat)
    requires align > 0
    ensures (q * align) % align == 0
  {
    var m := q * align;
    var k := q - m / align;
    assert m == (m / align) * align + m % align;
    assert k * align == m % align;
  }

  /**
   * How a BLOB (`DBTYPE_BYTES`) column is bound: as it is, or rebound as an
   * `IUnknown*` to a storage object of the given kind.
   */
  datatype BlobPolicy = KeepBlobs | BlobsAsObjects(obj: ObjectRequest)

  /** The binding of `col` whose length part starts at `offset`. */
  function BindColumn(col: ColumnInfo, offset: nat, plat: Platform, policy: BlobPolicy): Binding {
    var bound := Binding(col.ordinal, offset, offset + LENGTH_SIZE, offset + LENGTH_SIZE + STATUS_SIZE,
                         col.columnSize, col.wType, col.precision, col.scale, NoObject);
    if col.wType == plat.typeBytes && policy.BlobsAsObjects? then
      bound.(cbMaxLen := plat.pointerSize, wType := plat.typeIUnknown, obj := policy.obj)
    else if col.wType == plat.typeWStr then
      bound.(cbMaxLen := 2 * (col.columnSize + 1))
    else
      bound
  }

  /**
   * The fields of one DBBINDING entry set from its column: the three parts
   * back to back from `offset`, and the switch on the column type that sets
   * the value type, the width of the value part and the object request.
   */
  method BindingFor(col: ColumnInfo, offset: nat, plat: Platform, policy: BlobPolicy) returns (b: Binding)
    ensures b == BindColumn(col, offset, plat, policy)
  {
    b := Binding(col.ordinal, offset, offset + LENGTH_SIZE, offset + LENGTH_SIZE + STATUS_SIZE,
                 0, col.wType, col.precision, col.scale, NoObject);
    if col.wType == plat.typeBytes && policy.BlobsAsObjects? {
      b := b.(obj := policy.obj, cbMaxLen := plat.pointerSize, wType := plat.typeIUnknown);
    } else if col.wType == plat.typeWStr {
      b := b.(cbMaxLen := 2 * (col.columnSize + 1));
    } else {
      b := b.(cbMaxLen := col.columnSize);
    }
  }

  /** The bindings of a layout and the final offset, which is the size of the record buffer. */
  datatype Plan = Plan(bindings: seq<Binding>, size: nat)

  /** The layout of `cols`, bound in order starting at offset 0. */
  function LayoutOf(cols: seq<ColumnInfo>, plat: Platform, policy: BlobPolicy): (p: Plan)
    requires plat.alignment > 0
    ensures |p.bindings| == |cols|
    decreases |cols|
  {
    if cols == [] then Plan([], 0)
    else
      var prev := LayoutOf(cols[..|cols| - 1], plat, policy);
      var b := BindColumn(cols[|cols| - 1], prev.size, plat, policy);
      Plan(prev.bindings + [b], RoundUp(b.End(), plat.alignment))
  }

  /** Laying out a prefix of the columns gives a prefix of the bindings. */
  lemma {:induction false} LayoutPrefix(cols: seq<ColumnInfo>, plat: Platform, policy: BlobPolicy, n: nat)
    requires plat.alignment > 0 && n <= |cols|
    ensures LayoutOf(cols[..n], plat, policy).bindings == LayoutOf(cols, plat, policy).bindings[..n]
    decreases |cols|
  {
    if n < |cols| {
      var init := cols[..|cols| - 1];
      assert init[..n] == cols[..n];
      LayoutPrefix(init, plat, policy, n);
    } else {
      assert cols[..n] == cols;
    }
  }

  /** Binding `i` is column `i` bound at the offset the first `i` columns leave. */
  lemma LayoutAt(cols: seq<ColumnInfo>, plat: Platform, policy: BlobPolicy, i: nat)
    requires plat.alignment > 0 && i < |cols|
    ensures LayoutOf(cols, plat, policy).bindings[i] == BindColumn(cols[i], LayoutOf(cols[..i], plat, policy).size, plat, policy)
  {
    var upto := cols[..i + 1];
    assert upto[..i] == cols[..i];
    LayoutPrefix(cols, plat, policy, i + 1);
    assert LayoutOf(upto, plat, policy).bindings[i] == LayoutOf(cols, plat, policy).bindings[i];
  }

  /** The offset after the first `i + 1` columns is the rounded-up end of binding `i`. */
  lemma LayoutOffsetAfter(cols: seq<ColumnInfo>, plat: Platform, policy: BlobPolicy, i: nat)
    requires plat.alignment > 0 && i < |cols|
    ensures LayoutOf(cols[..i + 1], plat, policy).size
         == RoundUp(LayoutOf(cols, plat, policy).bindings[i].End(), plat.alignment)
  {
    var upto := cols[..i + 1];
    assert upto[..i] == cols[..i];
    LayoutAt(cols, plat, policy, i);
  }

  /**
   * Every binding takes its ordinal, precision and scale from its column,
   * its length, status and value parts are consecutive, and its value part
   * is sized by the column's type: `2 * (columnSize + 1)` bytes for a wide
   * string (room for the terminator), `sizeof(IUnknown*)` for a BLOB rebound as an
   * object, and `columnSize` bytes for anything else.
   */
  lemma LayoutBindsEachColumn(cols: seq<ColumnInfo>, plat: Platform, policy: BlobPolicy, i: nat)
    requires plat.Valid() && i < |cols|
    ensures var b := LayoutOf(cols, plat, policy).bindings[i];
      && b.ordinal == cols[i].ordinal && b.precision == cols[i].precision && b.scale == cols[i].scale
      && b.obStatus == b.obLength + 4 && b.obValue == b.obStatus + 4
      && (cols[i].wType == plat.typeWStr ==>
            b.wType == plat.typeWStr && b.cbMaxLen == 2 * (cols[i].columnSize + 1) && b.obj == NoObject)
      && (cols[i].wType == plat.typeBytes && policy.BlobsAsObjects? ==>
            b.wType == plat.typeIUnknown && b.cbMaxLen == plat.pointerSize && b.obj == policy.obj)
      && (cols[i].wType == plat.typeBytes && policy.KeepBlobs? ==>
            b.wType == plat.typeBytes && b.cbMaxLen == cols[i].columnSize && b.obj == NoObject)
      && (cols[i].wType != plat.typeWStr && cols[i].wType != plat.typeBytes ==>
            b.wType == cols[i].wType && b.cbMaxLen == cols[i].columnSize && b.obj == NoObject)
  {
    LayoutAt(cols, plat, policy, i);
  }

  /**
   * The first binding starts at offset 0, each following binding starts at
   * the rounded-up end of the one before it, and the buffer size is the
   * rounded-up end of the last binding.
   */
  lemma LayoutOffsets(cols: seq<ColumnInfo>, plat: Platform, policy: BlobPolicy)
    requires plat.alignment > 0
    ensures var p := LayoutOf(cols, plat, policy);
      && (|cols| == 0 ==> p.size == 0)
      && (|cols| > 0 ==> p.bindings[0].obLength == 0
                          && p.size == RoundUp(p.bindings[|cols| - 1].End(), plat.alignment))
      && forall i :: 0 <= i < |cols| - 1 ==>
           p.bindings[i + 1].obLength == RoundUp(p.bindings[i].End(), plat.alignment)
  {
    var p := LayoutOf(cols, plat, policy);
    if |cols| > 0 {
      LayoutAt(cols, plat, policy, 0);
      assert cols[..0] == [];
      LayoutOffsetAfter(cols, plat, policy, |cols| - 1);
      assert cols[..|cols|] == cols;
    }
    forall i | 0 <= i < |cols| - 1
      ensures p.bindings[i + 1].obLength == RoundUp(p.bindings[i].End(), plat.alignment)
    {
      LayoutAt(cols, plat, policy, i + 1);
      LayoutOffsetAfter(cols, plat, policy, i);
    }
  }

  /** Every binding starts at a multiple of the alignment, and so does the buffer size. */
  lemma LayoutAligned(cols: seq<ColumnInfo>, plat: Platform, policy: BlobPolicy)
    requires plat.alignment > 0
    ensures var p := LayoutOf(cols, plat, policy);
      && p.size % plat.alignment == 0
      && forall i :: 0 <= i < |cols| ==> p.bindings[i].obLength % plat.alignment == 0
  {
    var p := LayoutOf(cols, plat, policy);
    LayoutOffsets(cols, plat, policy);
    if |cols| > 0 {
      RoundUpIsLeastMultiple(p.bindings[|cols| - 1].End(), plat.alignment);
    }
    forall i | 0 <= i < |cols| ensures p.bindings[i].obLength % plat.alignment == 0 {
      if i > 0 {
        RoundUpIsLeastMultiple(p.bindings[i - 1].End(), plat.alignment);
      }
    }
  }

  /** Each binding starts at or after the end of every binding before it. */
  predicate InOrder(bindings: seq<Binding>) {
    forall i, j :: 0 <= i < j < |bindings| ==> bindings[i].End() <= bindings[j].obLength
  }

  /** The buffer size reaches past the value part of every binding. */
  predicate Covers(bindings: seq<Binding>, size: nat) {
    forall i :: 0 <= i < |bindings| ==> bindings[i].End() <= size
  }

  /**
   * Bindings are laid out in order without overlap: each binding starts at
   * or after the end of every binding before it, and the buffer covers the
   * value part of every binding.
   */
  lemma {:induction false} LayoutDisjoint(cols: seq<ColumnInfo>, plat: Platform, policy: BlobPolicy)
    requires plat.alignment > 0
    ensures InOrder(LayoutOf(cols, plat, policy).bindings)
    ensures Covers(LayoutOf(cols, plat, policy).bindings, LayoutOf(cols, plat, policy).size)
    decreases |cols|
  {
    if |cols| > 0 {
      var init := cols[..|cols| - 1];
      var p := LayoutOf(cols, plat, policy);
      var q := LayoutOf(init, plat, policy);
      LayoutDisjoint(init, plat, policy);
      assert p.bindings == q.bindings + [p.bindings[|cols| - 1]];
      var last := p.bindings[|cols| - 1];
      assert last.obLength == q.size;
      RoundUpIsLeastMultiple(last.End(), plat.alignment);
      assert last.End() <= p.size;
      forall i | 0 <= i < |cols| ensures p.bindings[i].End() <= p.size {
        if i < |cols| - 1 {
          assert p.bindings[i] == q.bindings[i];
          assert q.bindings[i].End() <= q.size;
        }
      }
      forall i, j | 0 <= i < j < |cols| ensures p.bindings[i].End() <= p.bindings[j].obLength {
        assert p.bindings[i] == q.bindings[i];
        if j < |cols| - 1 {
          assert p.bindings[j] == q.bindings[j];
        } else {
          assert q.bindings[i].End() <= q.size;
        }
      }
    }
  }

  /**
   * A layout of columns whose 4-byte integer columns are at least 4 bytes
   * wide can be used to read and write its record buffer.
   */
  lemma LayoutWellFormed(cols: seq<ColumnInfo>, plat: Platform, policy: BlobPolicy)
    requires plat.Valid()
    requires forall i :: 0 <= i < |cols| && cols[i].wType == plat.typeI4 ==> cols[i].columnSize >= 4
    ensures WellFormed(LayoutOf(cols, plat, policy).bindings, LayoutOf(cols, plat, policy).size, plat)
  {
    var p := LayoutOf(cols, plat, policy);
    LayoutDisjoint(cols, plat, policy);
    forall i | 0 <= i < |cols|
      ensures SlotsInOrder(p.bindings[i])
      ensures p.bindings[i].wType == plat.typeWStr ==> p.bindings[i].cbMaxLen >= 2
      ensures p.bindings[i].wType == plat.typeI4 ==> p.bindings[i].cbMaxLen >= 4
    {
      LayoutBindsEachColumn(cols, plat, policy, i);
    }
  }

  /**
   * The binding loop of `InsertEmployeeInfo`: the bookmark column (entry 0
   * of the metadata) is not bound, each other column is bound in order, and
   * BLOB columns are rebound as writable sequential streams. `ok` is false
   * when the provider reports no columns, in which case nothing is built.
   */
  method BuildRowBindings(info: seq<ColumnInfo>, plat: Platform)
    returns (ok: bool, bindings: array<Binding>, size: nat)
    requires plat.Valid()
    ensures ok <==> |info| > 0
    ensures ok ==> bindings.Length == |info| - 1
    ensures ok ==> var p := LayoutOf(info[1..], plat, BlobsAsObjects(StreamForWrite));
                   bindings[..] == p.bindings && size == p.size
  {
    if |info| == 0 {
      return false, new Binding[0], 0;
    }
    var count := |info| - 1;
    ghost var cols := info[1..];
    bindings := new Binding[count];
    var offset := 0;
    var index := 0;
    while index < count
      invariant 0 <= index <= count
      invariant bindings[..index] == LayoutOf(cols[..index], plat, BlobsAsObjects(StreamForWrite)).bindings
      invariant offset == LayoutOf(cols[..index], plat, BlobsAsObjects(StreamForWrite)).size
    {
      var b := BindingFor(info[index + 1], offset, plat, BlobsAsObjects(StreamForWrite));
      bindings[index] := b;
      offset := b.End();
      offset := RoundUp(offset, plat.alignment);
      assert cols[..index + 1][..index] == cols[..index];
      index := index + 1;
    }
    assert cols[..count] == cols;
    return true, bindings, offset;
  }

  /** Binding `i` of the insert layout describes column `i + 1` of the metadata. */
  lemma RowBindingsSkipBookmark(info: seq<ColumnInfo>, plat: Platform, i: nat)
    requires plat.Valid() && i + 1 < |info|
    ensures var b := LayoutOf(info[1..], plat, BlobsAsObjects(StreamForWrite)).bindings;
      |b| == |info| - 1 && b[i].ordinal == info[i + 1].ordinal
      && (info[i + 1].wType != plat.typeBytes ==> b[i].wType == info[i + 1].wType)
      && (info[i + 1].wType == plat.typeBytes ==> b[i].wType == plat.typeIUnknown)
  {
    LayoutBindsEachColumn(info[1..], plat, BlobsAsObjects(StreamForWrite), i);
  }

  /** The metadata lists its columns at the index equal to their ordinal. */
  predicate OrdinalsAreIndices(info: seq<ColumnInfo>) {
    forall i :: 0 <= i < |info| ==> info[i].ordinal == i
  }

  /** Every name in `names` is answered by some column. */
  predicate AllFound(info: seq<ColumnInfo>, names: seq<string>) {
    forall i :: 0 <= i < |names| ==> FirstMatch(info, |info|, names[i]).Some?
  }

  /** The metadata entries the names resolve to, in the order of the names. */
  function Resolved(info: seq<ColumnInfo>, names: seq<string>): (cols: seq<ColumnInfo>)
    requires AllFound(info, names)
    ensures |cols| == |names|
  {
    seq(|names|, i requires 0 <= i < |names| => info[FirstMatch(info, |info|, names[i]).value])
  }

  /** The outcome of a binding build that looks its columns up by name. */
  datatype BuildOutcome = Built | NoColumns | ColumnMissing(name: string)

  /**
   * The binding loop shared by `PopulateEmployeeNameList`,
   * `LoadEmployeeInfo` and `SaveEmployeeInfo`: each requested name is
   * looked up with `GetColumnOrdinal`, and the build fails at the first
   * name no column answers to (`E_FAIL`). The metadata entry is then read
   * at the index equal to the ordinal found, which assumes that ordinals
   * are indices.
   */
  method BuildNamedBindings(info: seq<ColumnInfo>, names: seq<string>, plat: Platform, policy: BlobPolicy)
    returns (outcome: BuildOutcome, bindings: array<Binding>, size: nat)
    requires plat.Valid() && OrdinalsAreIndices(info)
    ensures outcome == NoColumns <==> |info| == 0
    ensures outcome == Built <==> |info| > 0 && AllFound(info, names)
    ensures outcome.ColumnMissing? ==> exists k :: 0 <= k < |names| && outcome.name == names[k]
                                        && AllFound(info, names[..k]) && FirstMatch(info, |info|, names[k]).None?
    ensures outcome == Built ==> var p := LayoutOf(Resolved(info, names), plat, policy);
                                 bindings.Length == |names| && bindings[..] == p.bindings && size == p.size
  {
    if |info| == 0 {
      return NoColumns, new Binding[0], 0;
    }
    bindings := new Binding[|names|];
    var offset := 0;
    var ordinal := 0;
    var index := 0;
    while index < |names|
      invariant 0 <= index <= |names|
      invariant AllFound(info, names[..index])
      invariant bindings[..index] == LayoutOf(Resolved(info, names[..index]), plat, policy).bindings
      invariant offset == LayoutOf(Resolved(info, names[..index]), plat, policy).size
    {
      var found;
      found, ordinal, offset := BindNextName(info, names, index, plat, policy, bindings, ordinal, offset);
      if !found {
        return ColumnMissing(names[index]), bindings, offset;
      }
      index := index + 1;
    }
    assert names[..|names|] == names;
    return Built, bindings, offset;
  }

  /**
   * One pass of the named binding loop: the lookup of name `index`, and when
   * a column answers, its binding at `offset` and the next aligned offset.
   */
  method BindNextName(info: seq<ColumnInfo>, names: seq<string>, index: nat, plat: Platform, policy: BlobPolicy,
                      bindings: array<Binding>, ordinalIn: nat, offset: nat)
    returns (found: bool, ordinal: nat, next: nat)
    requires plat.Valid() && OrdinalsAreIndices(info)
    requires index < |names| == bindings.Length && AllFound(info, names[..index])
    requires bindings[..index] == LayoutOf(Resolved(info, names[..index]), plat, policy).bindings
    requires offset == LayoutOf(Resolved(info, names[..index]), plat, policy).size
    modifies bindings
    ensures found <==> FirstMatch(info, |info|, names[index]).Some?
    ensures !found ==> next == offset
    ensures found ==> && AllFound(info, names[..index + 1])
                      && bindings[..index + 1] == LayoutOf(Resolved(info, names[..index + 1]), plat, policy).bindings
                      && next == LayoutOf(Resolved(info, names[..index + 1]), plat, policy).size
  {
    found, ordinal := GetColumnOrdinal(info, |info|, names[index], ordinalIn);
    if !found {
      return false, ordinal, offset;
    }
    NamedLayoutStep(info, names, index, plat, policy);
    var b := BindingFor(info[ordinal], offset, plat, policy);
    bindings[index] := b;
    next := b.End();
    next := RoundUp(next, plat.alignment);
  }

  /** Resolving one more name binds its column after the ones resolved so far. */
  lemma NamedLayoutStep(info: seq<ColumnInfo>, names: seq<string>, n: nat, plat: Platform, policy: BlobPolicy)
    requires plat.alignment > 0 && OrdinalsAreIndices(info)
    requires n < |names| && AllFound(info, names[..n]) && FirstMatch(info, |info|, names[n]).Some?
    ensures AllFound(info, names[..n + 1])
    ensures var prev := LayoutOf(Resolved(info, names[..n]), plat, policy);
      var k := FirstMatch(info, |info|, names[n]).value;
      var b := BindColumn(info[k], prev.size, plat, policy);
      && info[k].ordinal == k
      && LayoutOf(Resolved(info, names[..n + 1]), plat, policy) == Plan(prev.bindings + [b], RoundUp(b.End(), plat.alignment))
  {
    ResolvedStep(info, names, n);
  }

  /** Resolving one more name appends its column. */
  lemma ResolvedStep(info: seq<ColumnInfo>, names: seq<string>, n: nat)
    requires n < |names| && AllFound(info, names[..n]) && FirstMatch(info, |info|, names[n]).Some?
    ensures AllFound(info, names[..n + 1])
    ensures var cols := Resolved(info, names[..n + 1]);
      cols[..n] == Resolved(info, names[..n]) && cols[n] == info[FirstMatch(info, |info|, names[n]).value]
  {
    assert names[..n + 1][..n] == names[..n];
  }
}
