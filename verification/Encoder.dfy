/** The two-ended growable buffer that all packets are written into. */
module Encoding {
  import opened Bytes
  import opened Tlv

  datatype WriteOp =
    | PrependBytes(bytes: seq<Byte>)
    | AppendBytes(bytes: seq<Byte>)
    | PrependNumber(number: nat)
    | AppendNumber(number: nat)
    | PrependInteger(number: nat)
    | AppendInteger(number: nat)

  /** What a write adds, and at which end, said without a buffer. */
  function Apply(s: seq<Byte>, op: WriteOp): seq<Byte> {
    match op
    case PrependBytes(bytes) => bytes + s
    case AppendBytes(bytes) => s + bytes
    case PrependNumber(n) => EncodeVarNumber(n) + s
    case AppendNumber(n) => s + EncodeVarNumber(n)
    case PrependInteger(n) => EncodeNonNegativeInteger(n) + s
    case AppendInteger(n) => s + EncodeNonNegativeInteger(n)
  }

  function ApplyAll(s: seq<Byte>, ops: seq<WriteOp>): seq<Byte> {
    if ops == [] then s else Apply(ApplyAll(s, ops[..|ops| - 1]), ops[|ops| - 1])
  }

  lemma Overwritten(was: seq<Byte>, now: seq<Byte>, b: nat, bytes: seq<Byte>, end: nat)
    requires |now| == |was| && b + |bytes| <= end <= |was|
    requires forall k :: 0 <= k < |was| ==> now[k] == if b <= k < b + |bytes| then bytes[k - b] else was[k]
    ensures now[..b] == was[..b] && now[b..] == bytes + was[b + |bytes|..]
    ensures now[b..end] == bytes + was[b + |bytes|..end]
  {
  }

  class Encoder {
    var buffer: array<Byte>
    var begin: nat
    var end: nat

    ghost predicate Valid()
      reads this
    {
      begin <= end <= buffer.Length
    }

    ghost function Contents(): seq<Byte>
      requires Valid()
      reads this, buffer
    {
      buffer[begin..end]
    }

    constructor (totalReserve: nat, reserveFromBack: nat)
      ensures Valid() && fresh(buffer) && Contents() == [] && buffer.Length == totalReserve
      ensures begin == if reserveFromBack < totalReserve then totalReserve - reserveFromBack else totalReserve
    {
      buffer := new Byte[totalReserve](_ => 0);
      begin := totalReserve - if reserveFromBack < totalReserve then reserveFromBack else 0;
      end := totalReserve - if reserveFromBack < totalReserve then reserveFromBack else 0;
    }

    /** Move to a new buffer of `size` octets (never fewer than now), growing at one end. */
    method Reserve(size: nat, addInFront: bool)
      requires Valid()
      modifies this
      ensures Valid() && fresh(buffer) && Contents() == old(Contents())
      ensures buffer.Length == if size < old(buffer.Length) then old(buffer.Length) else size
      ensures addInFront ==> buffer.Length - end == old(buffer.Length - end)
      ensures !addInFront ==> begin == old(begin)
    {
      ghost var was := Contents();
      var newSize := if size < buffer.Length then buffer.Length else size;
      var shift := if addInFront then newSize - buffer.Length else 0;
      var buf := new Byte[newSize](_ => 0);
      forall i | 0 <= i < buffer.Length {
        buf[i + shift] := buffer[i];
      }
      assert buf[begin + shift..end + shift] == was;
      buffer, begin, end := buf, begin + shift, end + shift;
    }

    method ReserveFront(size: nat)
      requires Valid()
      modifies this
      ensures Valid() && Contents() == old(Contents()) && size <= begin
      ensures old(begin) >= size ==> buffer == old(buffer) && begin == old(begin) && end == old(end)
      ensures old(begin) < size ==> fresh(buffer)
    {
      if size > begin {
        Reserve(buffer.Length * 2 + size, true);
      }
    }

    method ReserveBack(size: nat)
      requires Valid()
      modifies this
      ensures Valid() && Contents() == old(Contents()) && end + size <= buffer.Length
      ensures old(end + size <= buffer.Length) ==> buffer == old(buffer) && begin == old(begin) && end == old(end)
      ensures old(end + size > buffer.Length) ==> fresh(buffer)
    {
      if end + size > buffer.Length {
        Reserve(buffer.Length * 2 + size, false);
      }
    }

    /** With room in front the buffer stays where it is and only the new octets are written. */
    method PrependRange(bytes: seq<Byte>) returns (length: nat)
      requires Valid()
      modifies this, buffer
      ensures Valid() && length == |bytes|
      ensures Contents() == bytes + old(Contents())
      ensures old(begin) >= length ==>
                && buffer == old(buffer) && begin == old(begin) - length && end == old(end)
                && buffer[begin..] == bytes + old(buffer[begin..])
                && buffer[..begin] == old(buffer[..begin - length])
      ensures old(begin) < length ==> fresh(buffer)
    {
      length := |bytes|;
      ReserveFront(length);
      begin := begin - length;
      var b := begin;
      ghost var was := buffer[..];
      forall k | b <= k < b + length {
        buffer[k] := bytes[k - b];
      }
      Overwritten(was, buffer[..], b, bytes, end);
      assert was[b + length..end] == old(Contents());
    }

    method AppendRange(bytes: seq<Byte>) returns (length: nat)
      requires Valid()
      modifies this, buffer
      ensures Valid() && length == |bytes|
      ensures Contents() == old(Contents()) + bytes
      ensures buffer == old(buffer) || fresh(buffer)
    {
      length := |bytes|;
      ReserveBack(length);
      var e := end;
      ghost var was := buffer[..];
      forall k | e <= k < e + length {
        buffer[k] := bytes[k - e];
      }
      Overwritten(was, buffer[..], e, bytes, e + length);
      end := end + length;
      assert was[begin..e] == old(Contents()) && buffer[begin..e] == was[begin..e];
      Join(buffer[..], begin, e, end);
    }

    /** The octets of a number, then its marker in front of them. */
    method PrependMarked(marker: Byte, bytes: seq<Byte>) returns (length: nat)
      requires Valid()
      modifies this, buffer
      ensures Valid() && length == 1 + |bytes|
      ensures Contents() == ([marker] + bytes) + old(Contents())
      ensures old(begin) >= length ==>
                && buffer == old(buffer) && begin == old(begin) - length && end == old(end)
                && buffer[begin..] == ([marker] + bytes) + old(buffer[begin..])
                && buffer[..begin] == old(buffer[..begin - length])
      ensures buffer == old(buffer) || fresh(buffer)
    {
      ghost var (was, c) := (buffer[begin..], Contents());
      var l := PrependRange(bytes);
      var m := PrependRange([marker]);
      length := l + m;
      Associative([marker], bytes, c);
      Associative([marker], bytes, was);
    }

    method PrependVarNumber(n: nat) returns (length: nat)
      requires Valid() && n < TWO_64
      modifies this, buffer
      ensures Valid() && length == SizeOfVarNumber(n)
      ensures Contents() == EncodeVarNumber(n) + old(Contents())
      ensures old(begin) >= length ==>
                && buffer == old(buffer) && begin == old(begin) - length && end == old(end)
                && buffer[begin..] == EncodeVarNumber(n) + old(buffer[begin..])
                && buffer[..begin] == old(buffer[..begin - length])
      ensures buffer == old(buffer) || fresh(buffer)
    {
      if n < 253 {
        length := PrependRange([n]);
      } else if n <= 0xFFFF {
        length := PrependMarked(253, ToBytes(n, 2));
      } else if n <= 0xFFFF_FFFF {
        length := PrependMarked(254, ToBytes(n, 4));
      } else {
        length := PrependMarked(255, ToBytes(n, 8));
      }
    }

    method AppendMarked(marker: Byte, bytes: seq<Byte>) returns (length: nat)
      requires Valid()
      modifies this, buffer
      ensures Valid() && length == 1 + |bytes|
      ensures Contents() == old(Contents()) + ([marker] + bytes)
      ensures buffer == old(buffer) || fresh(buffer)
    {
      ghost var c := Contents();
      var m := AppendRange([marker]);
      var l := AppendRange(bytes);
      length := m + l;
      assert (c + [marker]) + bytes == c + ([marker] + bytes);
    }

    method AppendVarNumber(n: nat) returns (length: nat)
      requires Valid() && n < TWO_64
      modifies this, buffer
      ensures Valid() && length == SizeOfVarNumber(n)
      ensures Contents() == old(Contents()) + EncodeVarNumber(n)
      ensures buffer == old(buffer) || fresh(buffer)
    {
      if n < 253 {
        length := AppendRange([n]);
      } else if n <= 0xFFFF {
        length := AppendMarked(253, ToBytes(n, 2));
      } else if n <= 0xFFFF_FFFF {
        length := AppendMarked(254, ToBytes(n, 4));
      } else {
        length := AppendMarked(255, ToBytes(n, 8));
      }
    }

    method PrependNonNegativeInteger(n: nat) returns (length: nat)
      requires Valid() && n < TWO_64
      modifies this, buffer
      ensures Valid() && length == SizeOfNonNegativeInteger(n)
      ensures Contents() == EncodeNonNegativeInteger(n) + old(Contents())
      ensures buffer == old(buffer) || fresh(buffer)
    {
      var width := if n <= 0xFF then 1 else if n <= 0xFFFF then 2 else if n <= 0xFFFF_FFFF then 4 else 8;
      length := PrependRange(ToBytes(n, width));
    }

    method AppendNonNegativeInteger(n: nat) returns (length: nat)
      requires Valid() && n < TWO_64
      modifies this, buffer
      ensures Valid() && length == SizeOfNonNegativeInteger(n)
      ensures Contents() == old(Contents()) + EncodeNonNegativeInteger(n)
      ensures buffer == old(buffer) || fresh(buffer)
    {
      var width := if n <= 0xFF then 1 else if n <= 0xFFFF then 2 else if n <= 0xFFFF_FFFF then 4 else 8;
      length := AppendRange(ToBytes(n, width));
    }

    /** Any interleaving of writes at the two ends, through every reallocation. */
    method Run(ops: seq<WriteOp>)
      requires Valid()
      requires forall op :: op in ops && !op.PrependBytes? && !op.AppendBytes? ==> op.number < TWO_64
      modifies this, buffer
      ensures Valid() && Contents() == ApplyAll(old(Contents()), ops)
    {
      for i := 0 to |ops|
        invariant Valid() && (buffer == old(buffer) || fresh(buffer))
        invariant Contents() == ApplyAll(old(Contents()), ops[..i])
      {
        assert ops[i] in ops;
        assert ops[..i + 1][..i] == ops[..i];
        match ops[i] {
          case PrependBytes(bytes) => var _ := PrependRange(bytes);
          case AppendBytes(bytes) => var _ := AppendRange(bytes);
          case PrependNumber(n) => var _ := PrependVarNumber(n);
          case AppendNumber(n) => var _ := AppendVarNumber(n);
          case PrependInteger(n) => var _ := PrependNonNegativeInteger(n);
          case AppendInteger(n) => var _ := AppendNonNegativeInteger(n);
        }
      }
      assert ops[..|ops|] == ops;
    }
  }
}
