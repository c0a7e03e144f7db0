/** C structures whose fields follow one another without gaps: where a field lies. */
module CStructs {

  /** A field of `count` values of `width` bytes each. */
  datatype Field = Field(name: string, width: nat, count: nat) {
    function Size(): nat {
      width * count
    }
  }

  /** The bytes of the first n fields together. */
  function OffsetAt(fields: seq<Field>, n: nat): nat
    requires n <= |fields|
  {
    if n == 0 then 0 else OffsetAt(fields, n - 1) + fields[n - 1].Size()
  }

  function SizeOf(fields: seq<Field>): nat {
    OffsetAt(fields, |fields|)
  }

  /** Every field lies in the structure, behind those before it. */
  lemma {:induction false} OffsetsGrow(fields: seq<Field>, i: nat, j: nat)
    requires i < j <= |fields|
    ensures OffsetAt(fields, i) + fields[i].Size() <= OffsetAt(fields, j)
    decreases j - i
  {
    if i + 1 < j {
      OffsetsGrow(fields, i, j - 1);
    }
  }
}
