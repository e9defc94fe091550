/**
  * The cyclic field iterator of nanopb (pb_common.c): it walks a field list and keeps, step by step, the
  * addresses of the current field and of its count or flag in the struct.
  */
module PbIterator {
  import opened PbSchema
  import opened PbDecodeSpec

  /** sizeof(void *) on the 64-bit devices the app is built for */
  const ADDRESS_SIZE: nat := 8

  /** The entry that ends a field list in memory: all zeros */
  const LAST_FIELD: Field := Field(0, STATIC, REQUIRED, VARINT, 0, 0, 0, 0)

  predicate IsFieldList(fields: seq<Field>) {
    forall f <- fields :: f.tag != 0
  }

  /** The entry at position i of a list in memory */
  function Entry(fields: seq<Field>, i: nat): Field {
    if i < |fields| then fields[i] else LAST_FIELD
  }

  // Direct addressing

  /** How much room a field takes in the struct */
  function Extent(f: Field): nat {
    if f.atype == STATIC && f.htype == REPEATED then f.dataSize * f.arraySize
    else if f.atype == ALLOCATED then ADDRESS_SIZE
    else f.dataSize
  }

  /** Whether field i lies in the same union as the field before */
  predicate Joined(fields: seq<Field>, i: nat)
    requires 0 < i < |fields|
  {
    fields[i - 1].htype.ONEOF? && fields[i].htype.ONEOF? && fields[i].dataOffset == SIZE_MAX
  }

  /** A struct layout: where each field is, and where its count or flag is */
  datatype Layout = Layout(at: seq<int>, flagAt: seq<int>)

  /**
    * The list was generated for the layout (the PB_DATAOFFSET_ and field macros of pb.h): every offset is
    * the gap after the end of the field before, or the mark of a shared union.
    */
  predicate Describes(fields: seq<Field>, l: Layout) {
    && |l.at| == |l.flagAt| == |fields|
    && forall i | 0 <= i < |fields| ::
         if i > 0 && Joined(fields, i) then l.at[i] == l.at[i - 1] && l.flagAt[i] == l.flagAt[i - 1]
         else
           && fields[i].dataOffset == l.at[i] - (if i == 0 then 0 else l.at[i - 1] + Extent(fields[i - 1]))
           && fields[i].sizeOffset == l.flagAt[i] - l.at[i]
  }

  /** Where the gaps of the list put field i */
  function DataAt(fields: seq<Field>, i: nat): int
    requires i < |fields|
  {
    if i == 0 then fields[0].dataOffset
    else if Joined(fields, i) then DataAt(fields, i - 1)
    else DataAt(fields, i - 1) + Extent(fields[i - 1]) + fields[i].dataOffset
  }

  function FlagAt(fields: seq<Field>, i: nat): int
    requires i < |fields|
  {
    if i > 0 && Joined(fields, i) then FlagAt(fields, i - 1) else DataAt(fields, i) + fields[i].sizeOffset
  }

  /** For a list generated for a layout, these are the addresses of the layout. */
  lemma {:induction false} AddressesOfLayout(fields: seq<Field>, l: Layout, i: nat)
    requires Describes(fields, l) && i < |fields|
    ensures DataAt(fields, i) == l.at[i] && FlagAt(fields, i) == l.flagAt[i]
  {
    if i > 0 {
      AddressesOfLayout(fields, l, i - 1);
    }
  }

  /** Position `k` steps on from `start`, around a list of n fields */
  function StepsOn(start: nat, k: nat, n: nat): (i: nat)
    requires start < n && k < n
    ensures i < n
  {
    if start + k < n then start + k else start + k - n
  }

  /** The tag is that of a field other than the extension placeholder. */
  predicate Matches(f: Field, tag: nat) {
    f.tag == tag && !f.ltype.EXTENSION?
  }

  /** pb_field_iter_t */
  class FieldIter {
    const fields: seq<Field>
    const dest: int
    var pos: nat
    var requiredFieldIndex: nat
    var pData: int
    var pSize: int

    /** The addresses and the index are those of the current field, as found from the start of the list. */
    ghost predicate Valid()
      reads this
    {
      && IsFieldList(fields)
      && if fields == [] then pos == 0 && requiredFieldIndex == 0
         else
           && pos < |fields|
           && requiredFieldIndex == RequiredBefore(fields, pos)
           && pData == dest + DataAt(fields, pos)
           && pSize == dest + FlagAt(fields, pos)
    }

    /** pb_field_iter_begin of a new iterator */
    constructor (fields: seq<Field>, dest: int)
      requires IsFieldList(fields)
      ensures Valid() && this.fields == fields && this.dest == dest && pos == 0
    {
      this.fields := fields;
      this.dest := dest;
      pos := 0;
      requiredFieldIndex := 0;
      pData := dest + Entry(fields, 0).dataOffset;
      pSize := dest + Entry(fields, 0).dataOffset + Entry(fields, 0).sizeOffset;
    }

    /** pb_field_iter_begin */
    method Begin() returns (more: bool)
      requires IsFieldList(fields)
      modifies this
      ensures Valid() && pos == 0 && more == (fields != [])
    {
      pos := 0;
      requiredFieldIndex := 0;
      pData := dest + Entry(fields, 0).dataOffset;
      pSize := pData + Entry(fields, 0).sizeOffset;
      more := Entry(fields, 0).tag != 0;
    }

    /** pb_field_iter_next */
    method Next() returns (more: bool)
      requires Valid()
      modifies this
      ensures Valid()
      ensures more == (old(pos) + 1 < |fields|)
      ensures pos == if more then old(pos) + 1 else 0
    {
      var prev := Entry(fields, pos);
      if prev.tag == 0 {
        return false;
      }
      pos := pos + 1;
      var cur := Entry(fields, pos);
      if cur.tag == 0 {
        var _ := Begin();
        return false;
      }
      var prevSize := prev.dataSize;
      if prev.htype.ONEOF? && cur.htype.ONEOF? && cur.dataOffset == SIZE_MAX {
        return true;
      } else if prev.atype == STATIC && prev.htype == REPEATED {
        prevSize := prevSize * prev.arraySize;
      } else if prev.atype == ALLOCATED {
        prevSize := ADDRESS_SIZE;
      }
      if prev.htype == REQUIRED {
        requiredFieldIndex := requiredFieldIndex + 1;
      }
      pData := pData + prevSize + cur.dataOffset;
      pSize := pData + cur.sizeOffset;
      more := true;
    }

    /**
      * pb_field_iter_find: stops at the first match from the current field on, around the list; when there
      * is none, back where it began. Only an empty list has tag 0, that of its end entry.
      */
    method Find(tag: nat) returns (found: bool)
      requires Valid()
      modifies this
      ensures Valid()
      ensures found <==> (exists f <- fields :: Matches(f, tag)) || (fields == [] && tag == 0)
      ensures !found ==> pos == old(pos)
      ensures found && fields != [] ==>
                exists k: nat | k < |fields| ::
                  && pos == StepsOn(old(pos), k, |fields|) && Matches(fields[pos], tag)
                  && forall j: nat | j < k :: !Matches(fields[StepsOn(old(pos), j, |fields|)], tag)
    {
      var start := pos;
      ghost var n := |fields|;
      ghost var k := 0;
      while true
        invariant Valid()
        invariant fields == [] ==> pos == start == 0 == k
        invariant fields != [] ==> k < n && start < n && pos == StepsOn(start, k, n)
        invariant fields != [] ==> forall j: nat | j < k :: !Matches(fields[StepsOn(start, j, n)], tag)
        decreases n - k
      {
        if Entry(fields, pos).tag == tag && !Entry(fields, pos).ltype.EXTENSION? {
          assert fields != [] ==> Matches(fields[pos], tag);
          return true;
        }
        var _ := Next();
        if pos == start {
          AllSeen(fields, start, k, tag);
          return false;
        }
        k := k + 1;
      }
      assert false;
    }

    /** find_extension_field */
    method FindExtension() returns (found: bool)
      requires Valid()
      modifies this
      ensures Valid()
      ensures found <==> exists f <- fields :: f.ltype.EXTENSION?
      ensures found ==> fields[pos].ltype.EXTENSION?
      ensures !found ==> pos == old(pos)
    {
      var start := pos;
      ghost var n := |fields|;
      ghost var k := 0;
      while true
        invariant Valid()
        invariant fields == [] ==> pos == start == 0 == k
        invariant fields != [] ==> k < n && start < n && pos == StepsOn(start, k, n)
        invariant fields != [] ==> forall j: nat | j < k :: !fields[StepsOn(start, j, n)].ltype.EXTENSION?
        decreases n - k
      {
        if Entry(fields, pos).ltype.EXTENSION? {
          return true;
        }
        var _ := Next();
        if pos == start {
          forall i | 0 <= i < n ensures !fields[i].ltype.EXTENSION? {
            assert i == StepsOn(start, StepsTo(start, i, n), n);
          }
          return false;
        }
        k := k + 1;
      }
      assert false;
    }
  }

  /** How many steps on from `start` position i comes */
  function StepsTo(start: nat, i: nat, n: nat): (k: nat)
    requires start < n && i < n
    ensures k < n && StepsOn(start, k, n) == i
  {
    if i >= start then i - start else i + n - start
  }

  lemma AllSeen(fields: seq<Field>, start: nat, k: nat, tag: nat)
    requires (fields == [] && tag != 0) ||
             (start < |fields| && k == |fields| - 1 && forall j: nat | j <= k :: !Matches(fields[StepsOn(start, j, |fields|)], tag))
    ensures !exists f <- fields :: Matches(f, tag)
  {
    forall i | 0 <= i < |fields| ensures !Matches(fields[i], tag) {
      assert StepsTo(start, i, |fields|) <= k;
    }
  }
}
