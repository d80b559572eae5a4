/** The Datum class: a name and a value object that it owns. */
module DatumObjects {
  import opened Bytes
  import opened Wrappers
  import opened Values
  import opened ValueDecoding
  import opened ValueHeap
  import opened Requests
  import opened Arguments

  class DatumObject {
    var name: seq<byte>
    var value: ValueObject
    ghost var shape: Shape  // the objects of the value

    ghost predicate Valid()
      reads this, Nodes(shape)
    {
      Holds(shape) && shape.node == value
    }

    ghost function Contents(): Datum
      reads this, Nodes(shape)
    {
      Datum(name, Tree(shape))
    }

    constructor ()
      ensures Valid() && Contents() == Datum([], Undefined([])) && forall o | o in Nodes(shape) :: fresh(o)
    {
      var blank := new ValueObject(0);
      LeafNodes(blank);
      name, value, shape := [], blank, Shape(blank, []);
    }

    /**
     SetValue deletes the old value and then stores a copy of v, or v itself, or for a null pointer an undefined value.
     The datum then owns either objects made here or exactly those of v.
     */
    method SetValue(v: ValueObject?, toCopy: bool, ghost sv: Shape)
      requires Valid() && (v != null ==> Holds(sv) && sv.node == v && Nodes(sv) !! Nodes(shape))
      modifies this
      ensures Valid()
      ensures Contents() == Datum(old(name), Stored(if v == null then None else Some(old(Tree(sv))), toCopy))
      ensures v == null ==> Contents().value == Undefined([])
      ensures v != null ==> Contents().value == if toCopy then Copied(old(Tree(sv))) else old(Tree(sv))
      ensures if v != null && !toCopy then shape == sv else forall o | o in Nodes(shape) :: fresh(o)
    {
      if v == null {
        value := new ValueObject(0);
        shape := Shape(value, []);
        LeafNodes(value);
      } else if toCopy {
        value, shape := Duplicate(v, sv);
      } else {
        value, shape := v, sv;
      }
    }

    /** Deserialize: a datum that is rejected leaves the object as it was; an accepted one gets a new value object. */
    method Deserialize(data: seq<byte>, off: nat, length: nat) returns (used: nat, overrun: bool)
      requires Valid() && |data| < TWO_32 && off <= |data|
      modifies this
      ensures match DecodeDatum(data, off, length)
              case Done(d, n) => !overrun && used == n && Valid() && Contents() == d
              case Rejected => !overrun && used == 0 && unchanged(this)
              case Overrun => overrun
    {
      hide DecodeValue, FromLE, Tree, Holds;
      used, overrun := 0, false;
      if length < 6 { return; }
      if off + 6 > |data| { return 0, true; }
      var total, nameLength := FromLE(data[off..off + 4]), FromLE(data[off + 4..off + 6]);
      if length < total || nameLength > total { return; }
      var at := off + 6 + nameLength;
      if at >= |data| { return 0, true; }
      var newValue := new ValueObject(data[at]);
      var res;
      ghost var s;
      res, overrun, s :=
        newValue.Deserialize(data, at, (total - 6 - nameLength) % TWO_32, Shape(newValue, []));
      if overrun || res == 0 { return; }
      label parsed:
      value, shape, name := newValue, s, data[off + 6..at];
      Frame@parsed(s);
      used := total;
    }

    /** GetSize: a uint32 sum. */
    method GetSize() returns (n: nat)
      requires Valid()
      ensures n == DatumSize(old(Contents())) % TWO_32
    {
      hide Tree, Holds, Size;
      var size := value.GetSize(shape);
      AddModulo(6 + |name|, Size(old(Tree(shape))));
      n := ((6 + |name|) % TWO_32 + size) % TWO_32;
    }

    /** Serialize: a new buffer of GetSize bytes: both lengths, the name, and the value behind it. */
    method Serialize() returns (res: array<byte>)
      requires Valid() && Sound(Contents().value) && DatumSize(Contents()) < TWO_32
      ensures fresh(res) && res[..] == EncodeDatum(old(Contents()))
    {
      hide Tree, Holds, Encode, LE;
      ghost var d := Contents();
      EncodeDatumSize(d);
      EncodeSize(d.value);
      var bytes := value.Serialize(shape);
      Frame(shape);
      var size := GetSize();
      res := new byte[size];
      CopyInto(res, 0, LE(size, 4));
      CopyInto(res, 4, LE(|name|, 2));
      CopyInto(res, 6, name);
      CopyInto(res, 6 + |name|, bytes[..]);
      HeaderJoins(LE(size, 4), LE(|name|, 2), name, bytes[..]);
      assert res[..] == res[..6 + |name| + bytes.Length];
    }
  }

  lemma HeaderJoins(a: seq<byte>, b: seq<byte>, c: seq<byte>, d: seq<byte>)
    ensures a + b + c + d == a + (b + (c + d))
  {
  }
}
