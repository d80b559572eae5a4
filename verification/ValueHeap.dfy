/**
 Value objects as they live in memory. The class hierarchy of Value is one class here, told apart by its type byte.

 A Shape names the objects of one value and how they are linked. Holds says that the links are really there and that
 no object occurs twice, so a heap described by shapes is a forest: acyclic and unshared.
 */
module ValueHeap {
  import opened Bytes
  import opened Values
  import opened ValueDecoding

  datatype Shape = Shape(node: ValueObject, kids: seq<Shape>)

  ghost function Nodes(s: Shape): set<ValueObject>
    decreases s, 0
  {
    {s.node} + KidNodes(s.kids)
  }

  ghost function KidNodes(ks: seq<Shape>): set<ValueObject>
    decreases ks, 1
  {
    set i, o | 0 <= i < |ks| && o in Nodes(ks[i]) :: o
  }

  /** The links of s are in the heap, its objects are all distinct, and each one is consistent. */
  ghost predicate Holds(s: Shape)
    reads Nodes(s)
    decreases s, 0
  {
    s.node.Consistent() && s.node !in KidNodes(s.kids) && Linked(s.node.elems, s.kids) && AllHold(s.kids)
  }

  ghost predicate Linked(elems: seq<ValueObject>, ks: seq<Shape>) {
    |elems| == |ks| && forall i | 0 <= i < |ks| :: elems[i] == ks[i].node
  }

  ghost predicate AllHold(ks: seq<Shape>)
    reads KidNodes(ks)
    decreases ks, 1
  {
    && (forall i | 0 <= i < |ks| :: Holds(ks[i]))
    && (forall i, j | 0 <= i < j < |ks| :: Nodes(ks[i]) !! Nodes(ks[j]))
  }

  /** The value stored in the objects of s. */
  ghost function Tree(s: Shape): (v: Value)
    reads Nodes(s)
    decreases s, 0
  {
    var o := s.node;
    if 1 <= o.kind <= 8 then Integer(KindOf(o.kind), o.num)
    else if o.kind == 9 then Str(o.data)
    else if o.kind == 10 then Arr(Trees(s.kids))
    else Undefined(o.data)
  }

  ghost function Trees(ks: seq<Shape>): (vs: seq<Value>)
    reads KidNodes(ks)
    ensures |vs| == |ks|
    ensures forall i | 0 <= i < |ks| :: vs[i] == Tree(ks[i])
    decreases ks, 1
  {
    seq(|ks|, i requires 0 <= i < |ks| reads KidNodes(ks) => Tree(ks[i]))
  }

  class ValueObject {
    const kind: byte               // type
    var num: int                   // value of the integer classes
    var data: seq<byte>            // str_data or undefined_data, with its length
    var elems: seq<ValueObject>    // the vector `array` of ValueArr

    ghost predicate Consistent()
      reads this
    {
      && kind <= 10
      && (1 <= kind <= 8 ==> KindOf(kind).Holds(num))
      && (kind != 10 ==> elems == [])
    }

    /** CreateValue: unknown types become undefined values. */
    constructor (t: byte)
      ensures Holds(Shape(this, [])) && Tree(Shape(this, [])) == CreateValue(t)
      ensures elems == [] && data == [] && kind == TypeOf(CreateValue(t))
    {
      kind := if t <= 10 then t else 0;
      num, data, elems := 0, [], [];
    }

    /** GetSize: the size of the value, as a uint32. */
    method GetSize(ghost s: Shape) returns (n: nat)
      requires Holds(s) && s.node == this
      ensures n == Size(old(Tree(s))) % TWO_32
      decreases s, 3
    {
      hide PayloadSize, Tree, Holds;
      n := GetSizeInternal(s);
      AddModulo(PayloadSize(old(Tree(s))), 5);
      n := (n + 5) % TWO_32;
    }

    method GetSizeInternal(ghost s: Shape) returns (n: nat)
      requires Holds(s) && s.node == this
      ensures n == PayloadSize(old(Tree(s))) % TWO_32
      decreases s, 2
    {
      if 1 <= kind <= 8 {
        n := KindOf(kind).Width();
      } else if kind == 9 {
        n := (|data| + 4) % TWO_32;
      } else if kind == 10 {
        n := SumSizes(s);
      } else {
        n := |data| % TWO_32;
      }
    }

    /** The loop of ValueArr::GetSizeInternal. The sum is a uint32. */
    method SumSizes(ghost s: Shape) returns (sum: nat)
      requires Holds(s) && s.node == this
      ensures sum == (4 + SizeAll(old(Trees(s.kids)))) % TWO_32
      decreases s, 1
    {
      ghost var vs := Trees(s.kids);
      sum := 4;
      for i := 0 to |elems|
        invariant Holds(s) && Trees(s.kids) == vs
        invariant sum == (4 + SizeAll(vs[..i])) % TWO_32
      {
        sum := AddSize(sum, i, s);
        SizeSum(vs, i);
      }
      assert vs[..|vs|] == vs;
    }

    method AddSize(sum: nat, i: nat, ghost s: Shape) returns (next: nat)
      requires Holds(s) && s.node == this && i < |s.kids|
      ensures Holds(s) && Trees(s.kids) == old(Trees(s.kids))
      ensures next == (sum + Size(old(Trees(s.kids)[i])) % TWO_32) % TWO_32
      decreases s, 0
    {
      var size := elems[i].GetSize(s.kids[i]);
      next := (sum + size) % TWO_32;
      Frame(s);
    }

    /** Serialize: a new buffer of GetSize bytes that holds exactly the encoding of the value. */
    method Serialize(ghost s: Shape) returns (res: array<byte>)
      requires Holds(s) && s.node == this && Fits(Tree(s))
      ensures fresh(res) && res[..] == Encode(old(Tree(s)))
      decreases s, 3
    {
      hide LE, EncodeAll, SizeAll, SoundAll, Nodes, AllHold;
      EncodeSize(Tree(s));
      var length := GetSizeInternal(s);
      Frame(s);
      var payload := SerializeInternal(s);
      res := Envelope(kind, length, payload[..]);
    }

    method SerializeInternal(ghost s: Shape) returns (copy: array<byte>)
      requires Holds(s) && s.node == this && Fits(Tree(s))
      ensures fresh(copy) && copy[..] == Payload(old(Tree(s)))
      decreases s, 2
    {
      hide LE, Encode, EncodeAll, SizeAll, SoundAll;
      EncodeSize(Tree(s));
      var size := GetSizeInternal(s);
      copy := new byte[size];
      if 1 <= kind <= 8 {
        CopyInto(copy, 0, LE(KindOf(kind).ToBits(num), KindOf(kind).Width()));
      } else if kind == 9 {
        CopyInto(copy, 0, LE(|data|, 4));
        CopyInto(copy, 4, data);
        assert copy[..] == copy[..4] + copy[4..];
      } else if kind == 10 {
        Frame(s);
        WriteElements(copy, s);
      } else {
        CopyInto(copy, 0, data);
      }
    }

    /** The loop of ValueArr::SerializeInternal: the count, then every element at the running offset. */
    method WriteElements(copy: array<byte>, ghost s: Shape)
      requires Holds(s) && s.node == this && SoundAll(Trees(s.kids)) && SizeAll(Trees(s.kids)) < TWO_32
      requires copy.Length == 4 + SizeAll(Trees(s.kids))
      modifies copy
      ensures copy[..] == LE(|elems|, 4) + EncodeAll(old(Trees(s.kids)))
      decreases s, 1
    {
      ghost var vs := Trees(s.kids);
      CopyInto(copy, 0, LE(|elems|, 4));
      Frame(s);
      var writeOffset := 4;
      WrittenEnds(vs);
      for i := 0 to |elems|
        invariant Holds(s) && Trees(s.kids) == vs
        invariant writeOffset == 4 + SizeAll(vs[..i]) <= copy.Length
        invariant copy[..writeOffset] == WrittenSoFar(vs, i)
      {
        WrittenStep(vs, i);
        writeOffset := WriteElement(copy, writeOffset, i, s);
      }
      assert vs[..|vs|] == vs;
      assert copy[..] == copy[..writeOffset];
    }

    method WriteElement(copy: array<byte>, writeOffset: nat, i: nat, ghost s: Shape) returns (next: nat)
      requires Holds(s) && s.node == this && i < |s.kids| && Fits(Trees(s.kids)[i])
      requires writeOffset + Size(Trees(s.kids)[i]) <= copy.Length
      modifies copy
      ensures Holds(s) && Trees(s.kids) == old(Trees(s.kids))
      ensures next == writeOffset + Size(old(Trees(s.kids)[i])) <= copy.Length
      ensures copy[..next] == old(copy[..writeOffset]) + Encode(old(Trees(s.kids)[i]))
      decreases s, 0
    {
      hide Encode, Size, Tree;
      EncodeSize(Trees(s.kids)[i]);
      var buf := elems[i].Serialize(s.kids[i]);
      Frame(s);
      var size := elems[i].GetSize(s.kids[i]);
      CopyInto(copy, writeOffset, buf[..]);
      next := writeOffset + size;
      Frame(s);
      assert copy[..next] == copy[..writeOffset] + copy[writeOffset..next];
    }

    // Parsing

    /** Value::Deserialize: does to this object what DecodeValue says, returning 0 bytes on failure. */
    method Deserialize(buf: seq<byte>, off: nat, length: nat, ghost s: Shape)
      returns (used: nat, overrun: bool, ghost s': Shape)
      requires Holds(s) && s.node == this && |buf| < TWO_32 && off <= |buf|
      modifies this
      ensures var r := DecodeValue(old(Tree(s)), buf, off, length);
              && overrun == r.Overrun?
              && (r.Done? ==> used == r.used && Became(s', this, r.value)
                              && forall o | o in Nodes(s') :: o in Nodes(s) || fresh(o))
              && (r.Rejected? ==> used == 0 && s' == s && unchanged(this))
      decreases |buf| - off, 0
    {
      used, overrun, s' := 0, false, s;
      if length < 5 { return; }
      if off == |buf| { overrun := true; return; }
      if buf[off] != kind { return; }
      if off + 5 > |buf| { overrun := true; return; }
      var len := FromLE(buf[off + 1..off + 5]);
      if (len + 5) % TWO_32 > length { return; }
      used, overrun, s' := DeserializeInternal(buf, off + 5, len, s);
      used := (used + 5) % TWO_32;
    }

    method DeserializeInternal(buf: seq<byte>, off: nat, len: nat, ghost s: Shape)
      returns (used: nat, overrun: bool, ghost s': Shape)
      requires Holds(s) && s.node == this && |buf| < TWO_32 && off <= |buf|
      modifies this
      ensures var r := DecodePayload(old(Tree(s)), buf, off, len);
              && overrun == r.Overrun?
              && (r.Done? ==> used == r.used && Became(s', this, r.value)
                              && forall o | o in Nodes(s') :: o in Nodes(s) || fresh(o))
      decreases |buf| - off, 2
    {
      used, overrun, s' := 0, false, s;
      if 1 <= kind <= 8 {
        var w := KindOf(kind).Width();
        if len < w { return; }
        if off + w > |buf| { overrun := true; return; }
        num := KindOf(kind).FromBits(FromLE(buf[off..off + w]));
        used := w;
      } else if kind == 9 {
        data := [];
        if len < 4 { return; }
        if off + 4 > |buf| { overrun := true; return; }
        var n := FromLE(buf[off..off + 4]);
        if len != (n + 4) % TWO_32 { return; }
        if off + 4 + n > |buf| { overrun := true; return; }
        data := buf[off + 4..off + 4 + n];
        used := len;
      } else if kind == 10 {
        s' := Clear();
        if off + 4 > |buf| { overrun := true; return; }
        used, overrun, s' := ReadElements(buf, off, len, FromLE(buf[off..off + 4]), s');
      } else {
        if len == 0 { return; }
        if off + len > |buf| { overrun := true; return; }
        data := buf[off..off + len];
        used := len;
      }
    }

    /** The elements of ValueArr::DeserializeInternal. Any failure empties the array again. */
    method ReadElements(buf: seq<byte>, off: nat, len: nat, count: nat, ghost s: Shape)
      returns (used: nat, overrun: bool, ghost s': Shape)
      requires s == Shape(this, []) && Holds(s) && kind == 10 && |buf| < TWO_32 && off + 4 <= |buf|
      modifies this
      ensures var r := DecodeElems(buf, off, len, 4, count);
              && overrun == r.Overrun?
              && (r.Done? ==> used == r.used && Became(s', this, Arr(r.value)))
              && (r.Rejected? ==> used == 0 && Became(s', this, Arr([])))
              && (!overrun ==> forall o | o in Nodes(s') :: o == this || fresh(o))
      decreases |buf| - off, 1
    {
      hide DecodeElems;
      var failed;
      used, failed, overrun, s' := ElementLoop(buf, off, len, count, s);
      if failed {
        s' := Clear();
      }
    }

    /** Its loop: one element after the other, until one is out of bounds or rejected. */
    method ElementLoop(buf: seq<byte>, off: nat, len: nat, count: nat, ghost s: Shape)
      returns (readOffset: nat, failed: bool, overrun: bool, ghost s': Shape)
      requires s == Shape(this, []) && Holds(s) && kind == 10 && |buf| < TWO_32 && off + 4 <= |buf|
      modifies this
      ensures var r := DecodeElems(buf, off, len, 4, count);
              && overrun == r.Overrun? && failed == r.Rejected? && (failed ==> readOffset == 0)
              && Holds(s') && s'.node == this && (forall o | o in KidNodes(s'.kids) :: fresh(o))
              && (r.Done? ==> readOffset == r.used && Trees(s'.kids) == r.value)
      decreases |buf| - off, 0
    {
      failed, overrun, s' := false, false, s;
      readOffset := 4;
      var i := 0;
      ElementsStart(DecodeElems(buf, off, len, 4, count));
      while i < count && !failed && !overrun
        invariant i <= count && Holds(s') && s'.node == this && forall o | o in KidNodes(s'.kids) :: fresh(o)
        invariant 4 <= readOffset && off + readOffset <= |buf|
        invariant var r := DecodeElems(buf, off, len, 4, count);
                  if failed || overrun then failed == r.Rejected? && overrun == r.Overrun?
                  else r == Behind(Trees(s'.kids), DecodeElems(buf, off, len, readOffset, count - i))
        decreases count - i, !failed && !overrun
      {
        var next;
        next, failed, overrun, s' := ElementStep(buf, off, len, readOffset, s', count - i);
        if !failed && !overrun {
          readOffset, i := next, i + 1;
        }
      }
      if failed || overrun {
        readOffset := 0;
      } else {
        ElementsEnd(Trees(s'.kids), buf, off, len, readOffset);
      }
    }

    /** The checks in front of each element, and the element. */
    method ElementStep(buf: seq<byte>, off: nat, len: nat, readOffset: nat, ghost s: Shape, ghost count: nat)
      returns (next: nat, failed: bool, overrun: bool, ghost s': Shape)
      requires Holds(s) && s.node == this && kind == 10 && |buf| < TWO_32
      requires 4 <= readOffset && off + readOffset <= |buf| && count > 0
      modifies this
      ensures Holds(s') && s'.node == this && (forall o | o in KidNodes(s'.kids) :: o in KidNodes(s.kids) || fresh(o))
      ensures var r := Behind(old(Trees(s.kids)), DecodeElems(buf, off, len, readOffset, count));
              if failed || overrun then failed == r.Rejected? && overrun == r.Overrun?
              else readOffset < next <= |buf| - off
                   && r == Behind(Trees(s'.kids), DecodeElems(buf, off, len, next, count - 1))
      decreases |buf| - off - readOffset, 2
    {
      hide DecodeElems, DecodeValue, Holds, Trees, Tree;
      ElementRound(Trees(s.kids), buf, off, len, readOffset, count);
      next, failed, overrun, s' := readOffset, false, false, s;
      if readOffset > len {
        failed := true;
      } else if off + readOffset == |buf| {
        overrun := true;
      } else {
        var readBytes;
        readBytes, overrun, s' := ReadElement(buf, off, len, readOffset, s);
        failed := !overrun && readBytes == 0;
        next := readOffset + readBytes;
      }
    }

    /** One round of that loop: create an object of the type found, parse it, and push it if it was accepted. */
    method ReadElement(buf: seq<byte>, off: nat, len: nat, readOffset: nat, ghost s: Shape)
      returns (readBytes: nat, overrun: bool, ghost s': Shape)
      requires Holds(s) && s.node == this && kind == 10 && |buf| < TWO_32
      requires 4 <= readOffset <= len && off + readOffset < |buf|
      modifies this
      ensures var r := DecodeValue(CreateValue(buf[off + readOffset]), buf, off + readOffset, len - readOffset);
              && overrun == r.Overrun?
              && (r.Rejected? ==> readBytes == 0)
              && Holds(s') && s'.node == this
              && (forall o | o in KidNodes(s'.kids) :: o in KidNodes(s.kids) || fresh(o))
              && (r.Done? ==> readBytes == r.used && Trees(s'.kids) == old(Trees(s.kids)) + [r.value])
      decreases |buf| - off - readOffset, 1
    {
      hide DecodeValue, Tree, Trees, Holds;
      var at := off + readOffset;
      var val := new ValueObject(buf[at]);
      ghost var sv;
      readBytes, overrun, sv := val.Deserialize(buf, at, len - readOffset, Shape(val, []));
      s' := s;
      Frame(s);
      if !overrun && readBytes > 0 {
        assert forall o | o in Nodes(sv) :: fresh(o);
        s' := PushBack(val, sv, s);
      }
    }

    /** push_back of an object whose value shares nothing with this one. */
    method PushBack(val: ValueObject, ghost sv: Shape, ghost s: Shape) returns (ghost s': Shape)
      requires Holds(s) && s.node == this && kind == 10
      requires Holds(sv) && sv.node == val && Nodes(sv) !! Nodes(s)
      modifies this`elems
      ensures s' == Shape(this, s.kids + [sv]) && elems == old(elems) + [val]
      ensures Holds(s') && Holds(sv) && KidNodes(s'.kids) == KidNodes(s.kids) + Nodes(sv)
      ensures Tree(sv) == old(Tree(sv)) && Trees(s'.kids) == old(Trees(s.kids)) + [Tree(sv)]
    {
      hide Tree, Trees;
      elems := elems + [val];
      s' := Shape(this, s.kids + [sv]);
      FrameKids(s);
      Frame(sv);
      AppendKid(s.kids, sv);
    }

    /** Clear: the elements are gone. */
    method Clear() returns (ghost s: Shape)
      requires Consistent()
      modifies this
      ensures s == Shape(this, []) && Holds(s) && elems == [] && num == old(num) && data == old(data)
    {
      elems := [];
      s := Shape(this, []);
    }

    // Copying

    /**
     CopyFrom on an object that shares nothing with the original. The original is left as it is. An undefined object
     that holds more bytes than the original makes it read past the original's bytes.
     */
    method CopyFrom(original: ValueObject, ghost so: Shape, ghost s: Shape) returns (overrun: bool, ghost s': Shape)
      requires Holds(s) && s.node == this && Holds(so) && so.node == original && Nodes(s) !! Nodes(so)
      requires kind == original.kind
      modifies this
      ensures overrun <==> kind == 0 && old(|data|) > old(|original.data|)
      ensures !overrun ==> Holds(s') && s'.node == this && forall o | o in Nodes(s') :: o == this || fresh(o)
      ensures !overrun && (kind != 0 || old(data) == []) ==> Tree(s') == Copied(old(Tree(so)))
      ensures !overrun && kind == 0 ==> Tree(s') == Undefined(old(original.data[..|data|]))
      decreases so, 3
    {
      overrun, s' := false, s;
      if 1 <= kind <= 8 {
        num := original.num;
      } else if kind == 9 {
        data := original.data;
      } else if kind == 10 {
        s' := CopyElements(original, so);
      } else if |data| > |original.data| {
        overrun := true;
      } else {
        data := original.data[..|data|];
      }
    }

    /** ValueArr::CopyFrom: an array of undefined elements of the right length, each one then set to its copy. */
    method CopyElements(original: ValueObject, ghost so: Shape) returns (ghost s: Shape)
      requires Consistent() && kind == 10 && Holds(so) && so.node == original && this !in Nodes(so)
      modifies this
      ensures Holds(s) && s.node == this && forall o | o in KidNodes(s.kids) :: fresh(o)
      ensures Trees(s.kids) == CopiedAll(old(Trees(so.kids)))
      decreases so, 2
    {
      ghost var vs := Trees(so.kids);
      s := NewFor(original, so);
      ghost var copies := Trees(s.kids);
      for i := 0 to |elems|
        invariant Holds(s) && s.node == this && forall o | o in KidNodes(s.kids) :: fresh(o)
        invariant Holds(so) && Trees(so.kids) == vs && Nodes(s) !! Nodes(so)
        invariant Trees(s.kids) == copies && |copies| == |vs| && |elems| == |vs|
        invariant forall j | 0 <= j < i :: copies[j] == Copied(vs[j])
      {
        s := CopyElement(i, original, so, s);
        copies := copies[i := Copied(vs[i])];
      }
      assert copies == CopiedAll(vs);
    }

    method NewFor(original: ValueObject, ghost so: Shape) returns (ghost s: Shape)
      requires Consistent() && kind == 10 && Holds(so) && so.node == original && this !in Nodes(so)
      modifies this
      ensures Holds(s) && s.node == this && forall o | o in KidNodes(s.kids) :: fresh(o)
      ensures Holds(so) && Trees(so.kids) == old(Trees(so.kids)) && Nodes(s) !! Nodes(so)
      ensures |Trees(s.kids)| == |Trees(so.kids)| == |elems|
    {
      s := New(|original.elems|);
      Frame(so);
    }

    method CopyElement(i: nat, original: ValueObject, ghost so: Shape, ghost s: Shape) returns (ghost s': Shape)
      requires Holds(s) && s.node == this && kind == 10 && i < |elems|
      requires Holds(so) && so.node == original && Nodes(s) !! Nodes(so) && i < |so.kids|
      modifies this
      ensures Holds(s') && s'.node == this && forall o | o in KidNodes(s'.kids) :: o in KidNodes(s.kids) || fresh(o)
      ensures Holds(so) && Trees(so.kids) == old(Trees(so.kids)) && Nodes(s') !! Nodes(so) && |elems| == old(|elems|)
      ensures Trees(s'.kids) == old(Trees(s.kids))[i := Copied(old(Trees(so.kids)[i]))]
      decreases so, 1
    {
      hide Tree, Trees;
      KidsInside(so.kids);
      KidsInside(s.kids);
      ghost var c;
      var ok;
      ok, c, s' := Set(i, original.elems[i], so.kids[i], s, s);
      Frame(so);
      ReplacedNodes(s.kids, i, c);
    }

    /** New: an array of `count` undefined elements. */
    method New(count: nat) returns (ghost s: Shape)
      requires Consistent() && kind == 10
      modifies this
      ensures Holds(s) && s.node == this && forall o | o in KidNodes(s.kids) :: fresh(o)
      ensures |elems| == |s.kids| == count && forall i | 0 <= i < count :: Trees(s.kids)[i] == Undefined([])
    {
      s := Clear();
      for i := 0 to count
        invariant Holds(s) && s.node == this && forall o | o in KidNodes(s.kids) :: fresh(o)
        invariant |elems| == |s.kids| == i && forall j | 0 <= j < i :: Trees(s.kids)[j] == Undefined([])
      {
        s := PushUndefined(s);
      }
    }

    method PushUndefined(ghost s: Shape) returns (ghost s': Shape)
      requires Holds(s) && s.node == this && kind == 10
      modifies this
      ensures Holds(s') && s'.node == this && |elems| == |s'.kids| == |s.kids| + 1
      ensures forall o | o in KidNodes(s'.kids) :: o in KidNodes(s.kids) || fresh(o)
      ensures Trees(s'.kids) == old(Trees(s.kids)) + [Undefined([])]
    {
      var val := new ValueObject(0);
      Frame(s);
      s' := PushBack(val, Shape(val, []), s);
    }

    /** Get: null when the index is out of bounds. */
    method Get(index: nat) returns (val: ValueObject?)
      ensures if index < |elems| then val == elems[index] else val == null
    {
      if index >= |elems| { return null; }
      return elems[index];
    }

    /**
     Set replaces one element by a copy of val. The old element is deleted and the new object put in its place before
     anything is copied, so the value of val must not share objects with the old element.
     */
    method Set(index: nat, val: ValueObject?, ghost sv: Shape, ghost s: Shape, ghost root: Shape)
      returns (ok: bool, ghost c: Shape, ghost s': Shape)
      requires Holds(s) && s.node == this && kind == 10 && Holds(root)
      requires val != null ==> Holds(sv) && sv.node == val
      requires val != null && index < |elems| ==> Nodes(s.kids[index]) !! Nodes(sv)
      modifies this`elems
      ensures ok == (index < |old(elems)| && val != null)
      ensures !ok ==> elems == old(elems) && s' == s
      ensures ok ==> s' == Shape(this, s.kids[index := c]) && Holds(s') && forall o | o in Nodes(c) :: fresh(o)
      ensures ok ==> Trees(s'.kids) == old(Trees(s.kids))[index := Copied(old(Tree(sv)))]
      ensures ok ==> Tree(c) == Copied(old(Tree(sv))) && Nodes(c) !! Nodes(sv)
      ensures ok ==> Grown(root, s', c) && |elems| == old(|elems|)
      decreases sv, 5
    {
      hide Tree, Trees, Below, Rewire, Nodes, Holds;
      ok, c, s' := false, s, s;
      if index >= |elems| { return; }
      if val == null { return; }
      NewElementsFit(root, s);
      AlreadyAllocated(root);
      c, s' := ReplaceElement(index, val, sv, s);
      Grows(root, s', c, KidNodes(s.kids));
      ok := true;
    }

    method ReplaceElement(index: nat, val: ValueObject, ghost sv: Shape, ghost s: Shape)
      returns (ghost c: Shape, ghost s': Shape)
      requires Holds(s) && s.node == this && kind == 10 && index < |elems|
      requires Holds(sv) && sv.node == val && Nodes(s.kids[index]) !! Nodes(sv)
      modifies this`elems
      ensures s' == Shape(this, s.kids[index := c]) && Holds(s') && forall o | o in Nodes(c) :: fresh(o)
      ensures KidNodes(s'.kids) <= KidNodes(s.kids) + Nodes(c) && |elems| == old(|elems|)
      ensures Trees(s'.kids) == old(Trees(s.kids))[index := Copied(old(Tree(sv)))]
      ensures Tree(c) == Copied(old(Tree(sv))) && Nodes(c) !! Nodes(sv)
      decreases sv, 4
    {
      hide Tree, Trees, Nodes;
      NotInside(s, index, sv);
      var copy := new ValueObject(val.kind);
      LeafNodes(copy);
      elems := elems[index := copy];
      Frame(sv);
      var overrun;
      overrun, c := copy.CopyFrom(val, sv, Shape(copy, []));
      s' := Shape(this, s.kids[index := c]);
      FrameKids(s);
      ReplaceKid(s.kids, index, c);
      AlreadyAllocated(sv);
    }

    /** Push appends a copy of val, which may be any value, also this array itself or one that encloses it. */
    method Push(val: ValueObject, ghost sv: Shape, ghost s: Shape, ghost root: Shape)
      returns (ghost c: Shape, ghost s': Shape)
      requires Holds(s) && s.node == this && kind == 10 && Holds(sv) && sv.node == val && Holds(root)
      modifies this`elems
      ensures s' == Shape(this, s.kids + [c]) && Holds(s') && forall o | o in Nodes(c) :: fresh(o)
      ensures Trees(s'.kids) == old(Trees(s.kids)) + [Copied(old(Tree(sv)))]
      ensures Tree(c) == Copied(old(Tree(sv))) && Nodes(c) !! Nodes(sv)
      ensures Grown(root, s', c)
    {
      hide Tree, Trees, Below, Rewire, Nodes;
      NewElementsFit(root, s);
      var copy;
      copy, c := Duplicate(val, sv);
      Frame(s);
      s' := PushBack(copy, c, s);
      AlreadyAllocated(root);
      Grows(root, s', c, KidNodes(s.kids));
    }
  }

  /** CreateValue(val->GetType()) followed by CopyFrom(val): a new tree of objects. */
  method Duplicate(val: ValueObject, ghost sv: Shape) returns (copy: ValueObject, ghost c: Shape)
    requires Holds(sv) && sv.node == val
    ensures Holds(c) && c.node == copy && forall o | o in Nodes(c) :: fresh(o)
    ensures Tree(c) == Copied(old(Tree(sv))) && Nodes(c) !! Nodes(sv)
    decreases sv, 4
  {
    copy := new ValueObject(val.kind);
    Frame(sv);
    var overrun;
    overrun, c := copy.CopyFrom(val, sv, Shape(copy, []));
    AlreadyAllocated(sv);
  }

  ghost predicate Became(s: Shape, o: ValueObject, v: Value)
    reads Nodes(s)
  {
    s.node == o && Holds(s) && Tree(s) == v
  }

  ghost function Behind(vs: seq<Value>, r: Parsed<seq<Value>>): Parsed<seq<Value>> {
    match r
    case Done(more, end) => Done(vs + more, end)
    case failed => failed
  }

  lemma ElementsStart(r: Parsed<seq<Value>>)
    ensures Behind([], r) == r
  {
    if r.Done? {
      assert [] + r.value == r.value;
    }
  }

  lemma BehindStep(vs: seq<Value>, v: Value, r: Parsed<seq<Value>>)
    ensures Behind(vs, if r.Done? then Done([v] + r.value, r.used) else r) == Behind(vs + [v], r)
  {
    if r.Done? {
      assert vs + ([v] + r.value) == vs + [v] + r.value;
    }
  }

  lemma ElementsEnd(vs: seq<Value>, buf: seq<byte>, off: nat, len: nat, readOffset: nat)
    requires |buf| < TWO_32 && off + readOffset <= |buf|
    ensures Behind(vs, DecodeElems(buf, off, len, readOffset, 0)) == Done(vs, readOffset)
  {
    assert vs + [] == vs;
  }

  lemma ReplacedNodes(ks: seq<Shape>, i: nat, c: Shape)
    requires i < |ks|
    ensures KidNodes(ks[i := c]) <= KidNodes(ks) + Nodes(c)
  {
    hide Nodes;
    forall o | o in KidNodes(ks[i := c]) ensures o in KidNodes(ks) + Nodes(c) {
      var j :| 0 <= j < |ks| && o in Nodes(ks[i := c][j]);
    }
  }

  lemma ReplaceKid(ks: seq<Shape>, i: nat, c: Shape)
    requires AllHold(ks) && i < |ks| && Holds(c) && KidNodes(ks) !! Nodes(c)
    ensures AllHold(ks[i := c]) && Trees(ks[i := c]) == Trees(ks)[i := Tree(c)]
    ensures KidNodes(ks[i := c]) <= KidNodes(ks) + Nodes(c)
  {
    hide Nodes, Holds, Tree, KidNodes;
    KidsInside(ks);
    ReplacedNodes(ks, i, c);
  }

  /** Every object of a value is the root of a value inside it. */
  lemma {:induction false} SubShape(t: Shape, o: ValueObject) returns (q: Shape)
    requires Holds(t) && o in Nodes(t)
    ensures Holds(q) && q.node == o && Nodes(q) <= Nodes(t)
    decreases t
  {
    q := t;
    if o != t.node {
      var i :| 0 <= i < |t.kids| && o in Nodes(t.kids[i]);
      KidsInside(t.kids);
      q := SubShape(t.kids[i], o);
    }
  }

  /** An object is the root of one value only. */
  lemma {:induction false} SameShape(p: Shape, q: Shape)
    requires Holds(p) && Holds(q) && p.node == q.node
    ensures p == q
    decreases p
  {
    forall i | 0 <= i < |p.kids| ensures p.kids[i] == q.kids[i] {
      SameShape(p.kids[i], q.kids[i]);
    }
    assert p.kids == q.kids;
  }

  /** A value that shares nothing with an element of s does not contain s. */
  lemma NotInside(s: Shape, index: nat, sv: Shape)
    requires Holds(s) && Holds(sv) && index < |s.kids| && Nodes(s.kids[index]) !! Nodes(sv)
    ensures s.node !in Nodes(sv)
  {
    KidsInside(s.kids);
    assert s.kids[index].node in Nodes(s) - Nodes(sv);
    if s.node in Nodes(sv) {
      var q := SubShape(sv, s.node);
      SameShape(s, q);
      assert false;
    }
  }

  /** The element loop stops, or does one round and carries on. */
  lemma ElementRound(vs: seq<Value>, buf: seq<byte>, off: nat, len: nat, readOffset: nat, count: nat)
    requires |buf| < TWO_32 && off + readOffset <= |buf| && count > 0
    ensures var at := off + readOffset;
            var r := Behind(vs, DecodeElems(buf, off, len, readOffset, count));
            if readOffset > len then r.Rejected?
            else if at == |buf| then r.Overrun?
            else match DecodeValue(CreateValue(buf[at]), buf, at, len - readOffset)
                 case Overrun => r.Overrun?
                 case Rejected => r.Rejected?
                 case Done(v, n) => r == Behind(vs + [v], DecodeElems(buf, off, len, readOffset + n, count - 1))
  {
    hide DecodeValue;
    var at := off + readOffset;
    if readOffset <= len && at < |buf| {
      match DecodeValue(CreateValue(buf[at]), buf, at, len - readOffset)
      case Done(v, n) => BehindStep(vs, v, DecodeElems(buf, off, len, readOffset + n, count - 1));
      case _ =>
    }
  }

  // Shapes that grow

  lemma LeafNodes(o: ValueObject)
    ensures Nodes(Shape(o, [])) == {o}
  {
  }

  lemma KidsInside(ks: seq<Shape>)
    ensures forall i | 0 <= i < |ks| :: Nodes(ks[i]) <= KidNodes(ks)
  {
    hide Nodes;
  }

  lemma AppendNodes(ks: seq<Shape>, c: Shape)
    ensures KidNodes(ks + [c]) == KidNodes(ks) + Nodes(c)
  {
    hide Nodes;
    var all := ks + [c];
    assert all[|ks|] == c && forall i | 0 <= i < |ks| :: all[i] == ks[i];
    forall o | o in KidNodes(ks) + Nodes(c) ensures o in KidNodes(all) {
      var i :| 0 <= i < |all| && o in Nodes(all[i]);
    }
  }

  lemma AppendKid(ks: seq<Shape>, c: Shape)
    requires AllHold(ks) && Holds(c) && KidNodes(ks) !! Nodes(c)
    ensures AllHold(ks + [c]) && KidNodes(ks + [c]) == KidNodes(ks) + Nodes(c)
    ensures Trees(ks + [c]) == Trees(ks) + [Tree(c)]
  {
    hide Nodes, Holds, Tree, KidNodes;
    KidsInside(ks);
    AppendNodes(ks, c);
  }

  // What happens to other objects does not matter to a value

  twostate lemma AlreadyAllocated(s: Shape)
    ensures forall o | o in Nodes(s) :: old(allocated(o))
    decreases s
  {
    forall o | o in KidNodes(s.kids) ensures old(allocated(o)) {
      var i :| 0 <= i < |s.kids| && o in Nodes(s.kids[i]);
      AlreadyAllocated(s.kids[i]);
    }
  }

  twostate lemma FrameKids(s: Shape)
    requires old(AllHold(s.kids)) && forall o | o in KidNodes(s.kids) && old(allocated(o)) :: unchanged(o)
    ensures AllHold(s.kids) && Trees(s.kids) == old(Trees(s.kids))
    ensures forall o | o in KidNodes(s.kids) :: old(allocated(o))
  {
    AlreadyAllocated(s);
    assert KidNodes(s.kids) <= Nodes(s);
    KidsInside(s.kids);
    forall i | 0 <= i < |s.kids| {
      Frame(s.kids[i]);
    }
  }

  twostate lemma Frame(s: Shape)
    requires old(Holds(s)) && forall o | o in Nodes(s) && old(allocated(o)) :: unchanged(o)
    ensures Holds(s) && Tree(s) == old(Tree(s)) && Trees(s.kids) == old(Trees(s.kids))
    ensures forall o | o in Nodes(s) :: old(allocated(o))
  {
    AlreadyAllocated(s);
  }

  /** Whatever later happens to the objects of another value, a copy that shares nothing with it keeps its value. */
  twostate lemma CopyIsIndependent(c: Shape, new source: Shape)
    requires old(Holds(c)) && Nodes(c) !! Nodes(source)
    requires forall o | o in Nodes(c) && old(allocated(o)) :: o in Nodes(source) || unchanged(o)
    ensures Holds(c) && Tree(c) == old(Tree(c))
  {
    Frame(c);
  }

  /** A uint32 running sum is the true sum modulo 2^32. */
  lemma SizeSum(vs: seq<Value>, i: nat)
    requires i < |vs|
    ensures ((4 + SizeAll(vs[..i])) % TWO_32 + Size(vs[i]) % TWO_32) % TWO_32 == (4 + SizeAll(vs[..i + 1])) % TWO_32
  {
    hide Size;
    SizeStep(vs, i);
    AddModulo(4 + SizeAll(vs[..i]), Size(vs[i]));
  }

  lemma AddModulo(a: nat, b: nat)
    ensures (a % TWO_32 + b % TWO_32) % TWO_32 == (a + b) % TWO_32
  {
  }

  /** What the buffer of an array holds once i elements are written. */
  ghost function WrittenSoFar(vs: seq<Value>, i: nat): seq<byte>
    requires SoundAll(vs) && i <= |vs|
  {
    SoundAllEach(vs);
    SoundAllEach(vs[..i]);
    LE(|vs|, 4) + EncodeAll(vs[..i])
  }

  lemma WrittenEnds(vs: seq<Value>)
    requires SoundAll(vs)
    ensures WrittenSoFar(vs, 0) == LE(|vs|, 4) && WrittenSoFar(vs, |vs|) == LE(|vs|, 4) + EncodeAll(vs)
  {
    assert vs[..0] == [] && vs[..|vs|] == vs;
  }

  lemma WrittenStep(vs: seq<Value>, i: nat)
    requires SoundAll(vs) && i < |vs| && SizeAll(vs) < TWO_32
    ensures Fits(vs[i])
    ensures SizeAll(vs[..i + 1]) == SizeAll(vs[..i]) + Size(vs[i]) <= SizeAll(vs)
    ensures WrittenSoFar(vs, i + 1) == WrittenSoFar(vs, i) + Encode(vs[i])
  {
    hide LE, Encode, Size, Sound, EncodeAll, SizeAll;
    PrefixStep(vs, i);
  }

  /** The five bytes of metadata in front of a payload. */
  method Envelope(kind: byte, length: nat, payload: seq<byte>) returns (res: array<byte>)
    requires length == |payload|
    ensures fresh(res) && res[..] == [kind] + LE(length, 4) + payload
  {
    res := new byte[5 + length];
    res[0] := kind;
    CopyInto(res, 1, LE(length, 4));
    CopyInto(res, 5, payload);
    assert res[..] == res[..1] + res[1..5] + res[5..];
  }

  /** memcpy into a buffer. */
  method CopyInto(dst: array<byte>, at: nat, src: seq<byte>)
    requires at + |src| <= dst.Length
    modifies dst
    ensures dst[..at] == old(dst[..at]) && dst[at..at + |src|] == src && dst[at + |src|..] == old(dst[at + |src|..])
    ensures dst[..at + |src|] == old(dst[..at]) + src
  {
    forall k | 0 <= k < |src| {
      dst[at + k] := src[k];
    }
    assert dst[..at + |src|] == dst[..at] + dst[at..at + |src|];
  }

  // A change deep inside a value

  /**
   What an arbitrary value root has become once the object of s has its new elements: if that object is part of root,
   the new shape takes its place, root still holds, and only the objects of c were added; otherwise root is as before.
   */
  ghost predicate Grown(root: Shape, s: Shape, c: Shape)
    reads Nodes(Rewire(root, s))
  {
    && Holds(Rewire(root, s)) && Nodes(Rewire(root, s)) <= Nodes(root) + Nodes(c)
    && (s.node !in Nodes(root) ==> Rewire(root, s) == root)
  }

  lemma NewElementsFit(root: Shape, s: Shape)
    requires Holds(root) && Holds(s)
    ensures s.node in Nodes(root) ==> KidNodes(s.kids) * Nodes(root) <= Below(root, s.node)
    ensures s.node in Nodes(root) ==> KidNodes(s.kids) <= Nodes(root)
  {
    if s.node in Nodes(root) {
      BelowIsOwn(root, s);
      BelowInside(root, s.node);
    }
  }

  /** The shape r with the part below t.node replaced by t. */
  ghost function Rewire(r: Shape, t: Shape): (q: Shape)
    ensures q.node == r.node
    decreases r, 0
  {
    if r.node == t.node then t else Shape(r.node, RewireAll(r.kids, t))
  }

  ghost function RewireAll(ks: seq<Shape>, t: Shape): (qs: seq<Shape>)
    ensures |qs| == |ks| && forall i | 0 <= i < |ks| :: qs[i] == Rewire(ks[i], t)
    decreases ks, 1
  {
    seq(|ks|, i requires 0 <= i < |ks| => Rewire(ks[i], t))
  }

  /** The objects of r strictly below o. */
  ghost function Below(r: Shape, o: ValueObject): set<ValueObject>
    decreases r, 0
  {
    if r.node == o then KidNodes(r.kids) else set i, x | 0 <= i < |r.kids| && x in Below(r.kids[i], o) :: x
  }

  lemma {:induction false} BelowInside(r: Shape, o: ValueObject)
    ensures Below(r, o) <= KidNodes(r.kids)
    decreases r
  {
    if r.node != o {
      KidsInside(r.kids);
      forall x | x in Below(r, o) ensures x in KidNodes(r.kids) {
        var i :| 0 <= i < |r.kids| && x in Below(r.kids[i], o);
        BelowInside(r.kids[i], o);
        assert x in Nodes(r.kids[i]);
      }
    }
  }

  lemma {:induction false} RewireAbsent(r: Shape, t: Shape)
    requires t.node !in Nodes(r)
    ensures Rewire(r, t) == r
    decreases r
  {
    KidsInside(r.kids);
    forall i | 0 <= i < |r.kids| ensures Rewire(r.kids[i], t) == r.kids[i] {
      RewireAbsent(r.kids[i], t);
    }
    assert RewireAll(r.kids, t) == r.kids;
  }

  lemma {:induction false} RewireNodes(r: Shape, t: Shape)
    ensures Nodes(Rewire(r, t)) <= Nodes(r) + KidNodes(t.kids)
    decreases r
  {
    if r.node != t.node {
      KidsInside(r.kids);
      forall o | o in KidNodes(RewireAll(r.kids, t)) ensures o in Nodes(r) + KidNodes(t.kids) {
        var i :| 0 <= i < |r.kids| && o in Nodes(RewireAll(r.kids, t)[i]);
        RewireNodes(r.kids[i], t);
      }
    }
  }

  /** In a value that holds, what lies below an object is what that object's own value lies on. */
  lemma {:induction false} BelowIsOwn(r: Shape, s: Shape)
    requires Holds(r) && Holds(s) && s.node in Nodes(r)
    ensures Below(r, s.node) == KidNodes(s.kids)
    decreases r
  {
    if r.node == s.node {
      SameShape(r, s);
    } else {
      KidsInside(r.kids);
      var i :| 0 <= i < |r.kids| && s.node in Nodes(r.kids[i]);
      BelowIsOwn(r.kids[i], s);
      BelowInKid(r, i, s.node);
    }
  }

  lemma BelowInKid(r: Shape, i: nat, o: ValueObject)
    requires i < |r.kids| && r.node != o && o in Nodes(r.kids[i]) && Apart(r.kids)
    ensures Below(r, o) == Below(r.kids[i], o)
  {
    hide Nodes;
    forall x | x in Below(r, o) ensures x in Below(r.kids[i], o) {
      var j :| 0 <= j < |r.kids| && x in Below(r.kids[j], o);
      if j != i {
        BelowAbsent(r.kids[j], o);
      }
    }
  }

  lemma {:induction false} BelowAbsent(r: Shape, o: ValueObject)
    requires o !in Nodes(r)
    ensures Below(r, o) == {}
    decreases r
  {
    KidsInside(r.kids);
    forall i | 0 <= i < |r.kids| ensures Below(r.kids[i], o) == {} {
      BelowAbsent(r.kids[i], o);
    }
  }

  /** Kids of r share nothing. */
  ghost predicate Apart(ks: seq<Shape>) {
    forall i, j | 0 <= i < j < |ks| :: Nodes(ks[i]) !! Nodes(ks[j])
  }

  lemma BelowOne(r: Shape, i: nat, t: Shape)
    requires i < |r.kids| && r.node != t.node && Apart(r.kids)
    requires KidNodes(t.kids) * Nodes(r) <= Below(r, t.node)
    ensures KidNodes(t.kids) * Nodes(r.kids[i]) <= Below(r.kids[i], t.node)
  {
    forall o | o in KidNodes(t.kids) * Nodes(r.kids[i]) ensures o in Below(r.kids[i], t.node) {
      KidsInside(r.kids);
      BelowOf(r, i, o, t.node);
    }
  }

  lemma BelowOf(r: Shape, i: nat, o: ValueObject, x: ValueObject)
    requires i < |r.kids| && r.node != x && Apart(r.kids) && o in Nodes(r.kids[i]) && o in Below(r, x)
    ensures o in Below(r.kids[i], x)
  {
    hide Nodes;
    var j :| 0 <= j < |r.kids| && o in Below(r.kids[j], x);
    BelowInside(r.kids[j], x);
    KidsBelowNode(r.kids[j]);
  }

  lemma KidsBelowNode(r: Shape)
    ensures KidNodes(r.kids) <= Nodes(r)
  {
  }

  lemma NothingShared(a: set<ValueObject>, b: set<ValueObject>)
    requires a * b == {}
    ensures a !! b
  {
    assert forall x | x in a :: x in b ==> x in a * b;
  }

  lemma RewireApart(r: Shape, i: nat, j: nat, t: Shape)
    requires i < j < |r.kids| && r.node != t.node && Apart(r.kids)
    requires KidNodes(t.kids) * Nodes(r) <= Below(r, t.node)
    ensures Nodes(Rewire(r.kids[i], t)) !! Nodes(Rewire(r.kids[j], t))
  {
    hide Nodes, Rewire, Below, KidNodes;
    assert Nodes(r.kids[i]) !! Nodes(r.kids[j]);
    var a, b := if t.node in Nodes(r.kids[i]) then i else j, if t.node in Nodes(r.kids[i]) then j else i;
    RewireAbsent(r.kids[b], t);
    RewireNodes(r.kids[a], t);
    BelowOne(r, b, t);
    BelowAbsent(r.kids[b], t.node);
    NothingShared(KidNodes(t.kids), Nodes(r.kids[b]));
    assert Nodes(Rewire(r.kids[a], t)) !! Nodes(r.kids[b]);
  }

  /** r's own object stays clear of the rewired kids. */
  lemma RewireAround(r: Shape, i: nat, t: Shape)
    requires i < |r.kids| && r.node != t.node && r.node !in KidNodes(r.kids)
    requires KidNodes(t.kids) * Nodes(r) <= Below(r, t.node)
    ensures r.node !in Nodes(Rewire(r.kids[i], t))
  {
    hide Rewire, Below, KidNodes;
    RewireNodes(r.kids[i], t);
    BelowInside(r, t.node);
    KidsInside(r.kids);
  }

  lemma RewireShape(r: Shape, t: Shape)
    requires r.node != t.node && Apart(r.kids) && r.node !in KidNodes(r.kids)
    requires KidNodes(t.kids) * Nodes(r) <= Below(r, t.node)
    ensures Apart(RewireAll(r.kids, t)) && r.node !in KidNodes(RewireAll(r.kids, t))
  {
    hide Nodes, Rewire, Below;
    var qs := RewireAll(r.kids, t);
    forall i, j | 0 <= i < j < |qs| ensures Nodes(qs[i]) !! Nodes(qs[j]) {
      RewireApart(r, i, j, t);
    }
    forall i | 0 <= i < |qs| ensures r.node !in Nodes(qs[i]) {
      RewireAround(r, i, t);
    }
  }

  /**
   When one object got new elements and nothing else in r changed, r with that object's new shape put in holds, provided
   the new elements bring in only objects from below it or from outside r.
   */
  twostate lemma {:induction false} RewireHolds(r: Shape, new t: Shape)
    requires old(Holds(r)) && Holds(t)
    requires forall o | o in Nodes(r) && old(allocated(o)) :: o == t.node || unchanged(o)
    requires KidNodes(t.kids) * Nodes(r) <= Below(r, t.node)
    ensures Holds(Rewire(r, t))
    decreases r
  {
    hide Below, Tree, Trees, KidNodes;
    if r.node != t.node {
      AlreadyAllocated(r);
      KidsInside(r.kids);
      RewireShape(r, t);
      forall i | 0 <= i < |r.kids| ensures Holds(Rewire(r.kids[i], t)) {
        BelowOne(r, i, t);
        KidsBelowNode(r);
        RewireHolds(r.kids[i], t);
      }
    }
  }

  twostate lemma Grows(root: Shape, new s: Shape, new c: Shape, new below: set<ValueObject>)
    requires old(Holds(root)) && Holds(s)
    requires forall o | o in Nodes(root) && old(allocated(o)) :: o == s.node || unchanged(o)
    requires KidNodes(s.kids) <= below + Nodes(c) && Nodes(c) !! Nodes(root)
    requires s.node in Nodes(root) ==> below * Nodes(root) <= Below(root, s.node) && below <= Nodes(root)
    ensures Grown(root, s, c)
  {
    hide Nodes, Below, Rewire;
    if s.node in Nodes(root) {
      RewireHolds(root, s);
      RewireNodes(root, s);
    } else {
      RewireAbsent(root, s);
      Frame(root);
    }
  }
}
