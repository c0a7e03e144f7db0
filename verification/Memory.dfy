/** memcpy, memmove and memset in a byte buffer, and its big-endian words. */
module Memory {
  import opened Bytes

  method CopyInto(mem: array<byte>, at: nat, d: seq<byte>)
    requires at + |d| <= mem.Length
    modifies mem
    ensures mem[..] == Splice(old(mem[..]), at, d)
  {
    for k := 0 to |d|
      invariant forall p :: 0 <= p < mem.Length ==>
        mem[p] == if at <= p < at + k then d[p - at] else old(mem[p])
    {
      mem[at + k] := d[k];
    }
  }

  method Clear(mem: array<byte>, at: nat, n: nat)
    requires at + n <= mem.Length
    modifies mem
    ensures mem[..] == Splice(old(mem[..]), at, Zeros(n))
  {
    for k := 0 to n
      invariant forall p :: 0 <= p < mem.Length ==>
        mem[p] == if at <= p < at + k then 0 else old(mem[p])
    {
      mem[at + k] := 0;
    }
  }

  function ReadU32(mem: array<byte>, p: nat): (v: u32)
    requires p + 4 <= mem.Length
    reads mem
    ensures v == U32At(mem[..], p)
  {
    mem[p] as int * 0x100_0000 + mem[p + 1] as int * 0x1_0000 + mem[p + 2] as int * 0x100 + mem[p + 3] as int
  }

  function ReadU16(mem: array<byte>, p: nat): (v: u16)
    requires p + 2 <= mem.Length
    reads mem
    ensures v == U16At(mem[..], p)
  {
    mem[p] as int * 0x100 + mem[p + 1] as int
  }

  method WriteU32(mem: array<byte>, p: nat, v: u32)
    requires p + 4 <= mem.Length
    modifies mem
    ensures mem[..] == Splice(old(mem[..]), p, U32Bytes(v))
  {
    CopyInto(mem, p, U32Bytes(v));
  }

  /** Move n bytes up by `gap`, from the last to the first, so that the overlap is read before it is written. */
  method MoveUp(mem: array<byte>, at: nat, n: nat, gap: nat)
    requires at + n + gap <= mem.Length
    modifies mem
    ensures mem[..] == Splice(old(mem[..]), at + gap, old(mem[..])[at..at + n])
  {
    ghost var was, moved := mem[..], mem[at..at + n];
    var k := n;
    while k > 0
      invariant 0 <= k <= n
      invariant forall p :: 0 <= p < mem.Length ==>
        mem[p] == if at + gap + k <= p < at + gap + n then moved[p - at - gap] else was[p]
    {
      k := k - 1;
      assert mem[at + k] == was[at + k] == moved[k];
      mem[at + gap + k] := mem[at + k];
    }
    assert was[at..at + n] == moved;
  }

  /** A larger or smaller block that starts with what the old one held. */
  method Realloc(mem: array<byte>, n: nat) returns (r: array<byte>)
    ensures fresh(r) && r.Length == n
    ensures mem.Length <= n ==> r[..mem.Length] == mem[..]
    ensures n <= mem.Length ==> r[..] == mem[..n]
  {
    r := new byte[n];
    for k := 0 to n
      invariant forall p :: 0 <= p < k && p < mem.Length ==> r[p] == mem[p]
    {
      if k < mem.Length {
        r[k] := mem[k];
      }
    }
  }
}
