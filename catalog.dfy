/**
 * Finding a column of the rowset by name (`Employees::GetColumnOrdinal`).
 */
module Catalog {
  import opened Wrappers
  import opened OleDb

  /** Case folding of one character, ASCII letters only (the model of `_wcsicmp`). */
  function FoldChar(c: char): char {
    if 'A' <= c <= 'Z' then (c as int + 32) as char else c
  }

  function Folded(s: string): (r: string)
    ensures |r| == |s|
  {
    seq(|s|, i requires 0 <= i < |s| => FoldChar(s[i]))
  }

  /** `_wcsicmp(a, b) == 0`. */
  predicate SameIgnoringCase(a: string, b: string) {
    Folded(a) == Folded(b)
  }

  /** A column entry answers to `query`: it has a name and the name equals `query` up to case. */
  predicate Answers(col: ColumnInfo, query: string) {
    col.name.Some? && SameIgnoringCase(col.name.value, query)
  }

  /** The first index below `numCols`, at or after `from`, of an entry that answers to `query`. */
  function FirstMatchFrom(info: seq<ColumnInfo>, numCols: nat, query: string, from: nat): (r: Option<nat>)
    requires numCols <= |info|
    ensures r.Some? ==> from <= r.value < numCols && Answers(info[r.value], query)
    ensures r.Some? ==> forall k :: from <= k < r.value ==> !Answers(info[k], query)
    ensures r.None? ==> forall k :: from <= k < numCols ==> !Answers(info[k], query)
    decreases numCols - from
  {
    if from >= numCols then None
    else if Answers(info[from], query) then Some(from)
    else FirstMatchFrom(info, numCols, query, from + 1)
  }

  /** The index of the first of the first `numCols` entries that answers to `query`. */
  function FirstMatch(info: seq<ColumnInfo>, numCols: nat, query: string): (r: Option<nat>)
    requires numCols <= |info|
  {
    FirstMatchFrom(info, numCols, query, 0)
  }

  /**
   * `GetColumnOrdinal(pDBColumnInfo, dwNumCols, pwszColName, pOrdinal)`:
   * `ordinalIn` is what `*pOrdinal` held before the call.
   */
  method GetColumnOrdinal(info: seq<ColumnInfo>, numCols: nat, query: string, ordinalIn: nat)
    returns (found: bool, ordinal: nat)
    requires numCols <= |info|
    ensures found <==> exists k :: 0 <= k < numCols && Answers(info[k], query)
    ensures found ==> exists k :: 0 <= k < numCols && Answers(info[k], query) && ordinal == info[k].ordinal
                                  && forall m :: 0 <= m < k ==> !Answers(info[m], query)
    ensures found ==> FirstMatch(info, numCols, query).Some? && ordinal == info[FirstMatch(info, numCols, query).value].ordinal
    ensures !found ==> ordinal == ordinalIn && FirstMatch(info, numCols, query).None?
  {
    var col := 0;
    while col < numCols
      invariant 0 <= col <= numCols
      invariant forall m :: 0 <= m < col ==> !Answers(info[m], query)
    {
      if info[col].name.Some? {
        if SameIgnoringCase(info[col].name.value, query) {
          FirstIsUnique(info, numCols, query, col);
          return true, info[col].ordinal;
        }
      }
      col := col + 1;
    }
    return false, ordinalIn;
  }

  /** The first match is determined by the entries: an index with no earlier match is it. */
  lemma FirstIsUnique(info: seq<ColumnInfo>, numCols: nat, query: string, k: nat)
    requires numCols <= |info| && k < numCols && Answers(info[k], query)
    requires forall m :: 0 <= m < k ==> !Answers(info[m], query)
    ensures FirstMatch(info, numCols, query) == Some(k)
  {
  }

  /** Looking a column up is insensitive to the case of the name asked for. */
  lemma {:induction false} LookupIgnoresCase(info: seq<ColumnInfo>, numCols: nat, q1: string, q2: string)
    requires numCols <= |info|
    requires SameIgnoringCase(q1, q2)
    ensures FirstMatch(info, numCols, q1) == FirstMatch(info, numCols, q2)
  {
    forall k | 0 <= k < numCols ensures Answers(info[k], q1) == Answers(info[k], q2) {
    }
    var r := FirstMatch(info, numCols, q1);
    if r.Some? {
      FirstIsUnique(info, numCols, q2, r.value);
    }
  }
}
