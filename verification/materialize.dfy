/**
 * The result materializer `zpg_parse_res`.
 *
 * A raw result of T rows and F columns becomes one allocated block of
 * pointer-sized slots (an LP64 target: 8-byte words):
 *
 *   [0, 3)                 header: back-reference, the two counts, name-array pointer
 *   [3, 3 + T)             T row descriptors, each a pointer to its row's values
 *   [3 + T, 3 + T + F)     F pointers to the field names
 *   [3 + T + F, size)      T*F pointers to the field values, row after row
 *
 * Names and values are not copied: each slot refers to text the raw result owns.
 */
module Materialize {
  import opened Wrappers

  /**
   * A raw result as the client library presents it: the field names, and for
   * each returned row the text of each field.
   */
  datatype RawResult = RawResult(names: seq<string>, cells: seq<seq<string>>)

  /** Every row has one value per field. */
  ghost predicate WellFormed(raw: RawResult)
  {
    forall j :: 0 <= j < |raw.cells| ==> |raw.cells[j]| == |raw.names|
  }

  /**
   * What one slot of the block holds. `Garbage` is storage the allocation left
   * unwritten; `Ptr(at)` points at slot `at` of the same block; `FieldName(i)`
   * and `FieldValue(j, i)` point at text inside the raw result.
   */
  datatype Slot =
    | Garbage
    | Counts(tuples: int, fields: int)
    | Ptr(at: int)
    | FieldName(col: int)
    | FieldValue(row: int, col: int)

  /** `p_pgResHd_`. */
  const BackRefSlot: nat := 0
  /** `tupleCnt` and `fieldCnt`: two 4-byte ints sharing one word. */
  const CountsSlot: nat := 1
  /** `fieldNames_.pp_fields`. */
  const NamesPtrSlot: nat := 2
  /** `sizeof(zPgRes__)` in words. */
  const HeaderSlots: nat := 3
  /** `sizeof(zPgResTuple__)` in words. */
  const TupleSlots: nat := 1

  /** The slot of row descriptor `tupleRes_[j]`. */
  function DescriptorAt(j: nat): nat
  {
    HeaderSlots + j * TupleSlots
  }

  /** Start of the field-name pointer array: just past the T row descriptors. */
  function NamesBase(tuples: nat): nat
  {
    DescriptorAt(tuples)
  }

  /** Start of row `j`'s value pointers: past the names, `j` rows of `fields` pointers in. */
  function RowBase(tuples: nat, fields: nat, j: nat): nat
  {
    NamesBase(tuples) + fields + j * fields
  }

  /** The allocation size, in words. */
  function BlockSize(tuples: nat, fields: nat): nat
  {
    HeaderSlots + tuples * TupleSlots + fields + tuples * fields
  }

  /**
   * What slot `k` of a fully written block holds, read off from the layout
   * region by region.
   */
  function SlotAt(tuples: nat, fields: nat, k: int): Slot
  {
    if k <= BackRefSlot then Garbage
    else if k == CountsSlot then Counts(tuples, fields)
    else if k == NamesPtrSlot then Ptr(NamesBase(tuples))
    else if k < NamesBase(tuples) then Ptr(RowBase(tuples, fields, k - HeaderSlots))
    else if k < NamesBase(tuples) + fields then FieldName(k - NamesBase(tuples))
    else if fields == 0 then Garbage
    else
      var off := k - NamesBase(tuples) - fields;
      FieldValue(off / fields, off % fields)
  }

  /**
   * The block `zpg_parse_res` builds from `raw`, or None (NULL) when the
   * result has no rows.
   */
  function Image(raw: RawResult): (r: Option<seq<Slot>>)
    ensures r.None? <==> |raw.cells| == 0
    ensures r.Some? ==> |r.value| == RowBase(|raw.cells|, |raw.names|, |raw.cells| - 1) + |raw.names|
  {
    var tuples, fields := |raw.cells|, |raw.names|;
    assert tuples > 0 ==> (tuples - 1) * fields + fields == tuples * fields;
    if tuples == 0 then None
    else Some(seq(BlockSize(tuples, fields), k => SlotAt(tuples, fields, k)))
  }

  // ---------------------------------------------------------------------
  // Reading a block, the way a consumer of `zPgRes__` does

  /** The text a slot points at, if it points into the raw result. */
  function Deref(raw: RawResult, s: Slot): Option<string>
  {
    match s
    case FieldName(i) =>
      if 0 <= i < |raw.names| then Some(raw.names[i]) else None
    case FieldValue(j, i) =>
      if 0 <= j < |raw.cells| && 0 <= i < |raw.cells[j]| then Some(raw.cells[j][i]) else None
    case _ => None
  }

  /** `fieldNames_.pp_fields[i]`, followed to its text. */
  function ReadName(raw: RawResult, b: seq<Slot>, i: nat): Option<string>
  {
    if |b| <= NamesPtrSlot then None
    else
      match b[NamesPtrSlot]
      case Ptr(p) => if 0 <= p + i < |b| then Deref(raw, b[p + i]) else None
      case _ => None
  }

  /** `tupleRes_[j].pp_fields[i]`, followed to its text. */
  function ReadValue(raw: RawResult, b: seq<Slot>, j: nat, i: nat): Option<string>
  {
    if |b| <= DescriptorAt(j) then None
    else
      match b[DescriptorAt(j)]
      case Ptr(p) => if 0 <= p + i < |b| then Deref(raw, b[p + i]) else None
      case _ => None
  }

  // ---------------------------------------------------------------------
  // Layout arithmetic

  lemma MulMonotone(a: nat, b: nat, c: nat)
    requires a <= b
    ensures a * c <= b * c
  {
  }

  lemma MulStep(a: nat, b: nat, c: nat)
    ensures a < b ==> a * c + c <= b * c
  {
    if a < b {
      MulMonotone(a + 1, b, c);
      assert (a + 1) * c == a * c + c;
    }
  }

  lemma RowColumn(j: nat, i: nat, fields: nat)
    requires i < fields
    ensures (j * fields + i) / fields == j
    ensures (j * fields + i) % fields == i
  {
    var off := j * fields + i;
    var q, r := off / fields, off % fields;
    assert q * fields + r == j * fields + i;
    MulStep(q, j, fields);
    MulStep(j, q, fields);
    assert q == j;
  }

  /**
   * Slice of row `j` at column `i`: it lies inside the block, and the slot
   * there refers to the value of that row and column.
   */
  lemma CellSlot(tuples: nat, fields: nat, j: nat, i: nat)
    requires j < tuples && i < fields
    ensures RowBase(tuples, fields, j) + i < BlockSize(tuples, fields)
    ensures SlotAt(tuples, fields, RowBase(tuples, fields, j) + i) == FieldValue(j, i)
  {
    MulMonotone(j + 1, tuples, fields);
    assert (j + 1) * fields == j * fields + fields;
    RowColumn(j, i, fields);
  }

  /**
   * The regions do not overlap and all lie inside the block: every row starts
   * after the names, row `j` ends no later than any later row `k` starts, and
   * every row, the last included, ends inside the block.
   */
  lemma RegionsDisjoint(tuples: nat, fields: nat, j: nat, k: nat)
    requires j < tuples && k < tuples
    ensures NamesBase(tuples) + fields <= RowBase(tuples, fields, j)
    ensures j < k ==> RowBase(tuples, fields, j) + fields <= RowBase(tuples, fields, k)
    ensures RowBase(tuples, fields, j) + fields <= BlockSize(tuples, fields)
  {
    MulMonotone(j + 1, tuples, fields);
    assert (j + 1) * fields == j * fields + fields;
    if j < k {
      MulMonotone(j + 1, k, fields);
    }
  }

  /**
   * Round trip: reading the block back through its own pointers gives the
   * counts, every field name and every row's values of the raw result; the
   * back-reference is left unwritten.
   */
  lemma RoundTrip(raw: RawResult)
    requires WellFormed(raw) && |raw.cells| > 0
    ensures Image(raw).Some?
    ensures Image(raw).value[BackRefSlot] == Garbage
    ensures Image(raw).value[CountsSlot] == Counts(|raw.cells|, |raw.names|)
    ensures forall i: nat :: i < |raw.names| ==> ReadName(raw, Image(raw).value, i) == Some(raw.names[i])
    ensures forall j: nat, i: nat :: j < |raw.cells| && i < |raw.names| ==>
              ReadValue(raw, Image(raw).value, j, i) == Some(raw.cells[j][i])
  {
    var tuples, fields := |raw.cells|, |raw.names|;
    var b := Image(raw).value;
    forall j: nat, i: nat | j < tuples && i < fields
      ensures ReadValue(raw, b, j, i) == Some(raw.cells[j][i])
    {
      CellSlot(tuples, fields, j, i);
      assert b[DescriptorAt(j)] == Ptr(RowBase(tuples, fields, j));
    }
  }

  // ---------------------------------------------------------------------
  // The materializer

  /** Slots `lo .. hi-1` of `b` already hold what the layout puts there. */
  ghost predicate Filled(b: array<Slot>, tuples: nat, fields: nat, lo: int, hi: int)
    reads b
  {
    forall k :: lo <= k < hi && 0 <= k < b.Length ==> b[k] == SlotAt(tuples, fields, k)
  }

  /**
   * `zpg_parse_res`: None (NULL) when the result has no rows; otherwise a new
   * block laid out as `Image(raw)` describes.
   */
  method ParseRes(raw: RawResult) returns (res: Option<array<Slot>>)
    ensures res.None? <==> |raw.cells| == 0
    ensures res.Some? ==> fresh(res.value) && Image(raw) == Some(res.value[..])
  {
    var tupleCnt := |raw.cells|;
    if tupleCnt == 0 {
      return None;
    }
    var fieldCnt := |raw.names|;
    var size := BlockSize(tupleCnt, fieldCnt);

    var b := new Slot[size](_ => Garbage);
    var names := NamesBase(tupleCnt);
    b[NamesPtrSlot] := Ptr(names);
    var values := names + fieldCnt;
    b[DescriptorAt(0)] := Ptr(values);
    b[CountsSlot] := Counts(tupleCnt, fieldCnt);
    assert Filled(b, tupleCnt, fieldCnt, 0, HeaderSlots + 1);

    for i := 0 to fieldCnt
      invariant Filled(b, tupleCnt, fieldCnt, 0, HeaderSlots + 1)
      invariant Filled(b, tupleCnt, fieldCnt, names, names + i)
    {
      b[names + i] := FieldName(i);
    }

    for j := 0 to tupleCnt
      invariant Filled(b, tupleCnt, fieldCnt, 0, HeaderSlots + 1)
      invariant Filled(b, tupleCnt, fieldCnt, 0, HeaderSlots + j)
      invariant Filled(b, tupleCnt, fieldCnt, names, RowBase(tupleCnt, fieldCnt, j))
    {
      FillRow(b, tupleCnt, fieldCnt, j);
    }

    assert names == HeaderSlots + tupleCnt && values + tupleCnt * fieldCnt == size;
    assert b[..] == seq(size, k => SlotAt(tupleCnt, fieldCnt, k));
    res := Some(b);
  }

  /**
   * One pass of the outer loop of `zpg_parse_res`: point descriptor `j` at
   * its row, then fill the row's value pointers.
   */
  method FillRow(b: array<Slot>, tuples: nat, fields: nat, j: nat)
    requires b.Length == BlockSize(tuples, fields) && j < tuples
    requires Filled(b, tuples, fields, 0, HeaderSlots + 1)
    requires Filled(b, tuples, fields, 0, HeaderSlots + j)
    requires Filled(b, tuples, fields, NamesBase(tuples), RowBase(tuples, fields, j))
    modifies b
    ensures Filled(b, tuples, fields, 0, HeaderSlots + 1)
    ensures Filled(b, tuples, fields, 0, HeaderSlots + j + 1)
    ensures Filled(b, tuples, fields, NamesBase(tuples), RowBase(tuples, fields, j + 1))
  {
    var row := RowBase(tuples, fields, j);
    b[DescriptorAt(j)] := Ptr(row);
    assert RowBase(tuples, fields, j + 1) == row + fields by {
      assert (j + 1) * fields == j * fields + fields;
    }
    for i := 0 to fields
      invariant Filled(b, tuples, fields, 0, HeaderSlots + j + 1)
      invariant Filled(b, tuples, fields, NamesBase(tuples), row + i)
    {
      CellSlot(tuples, fields, j, i);
      b[row + i] := FieldValue(j, i);
    }
  }
}
