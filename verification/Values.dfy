/** Dowow values as trees, and the bytes they are sent as. */
module Values {
  import opened Bytes

  /** The eight integer classes. They differ only in width, sign and type byte. */
  datatype IntKind = S64 | U64 | S32 | U32 | S16 | U16 | U8 | S8 {
    function Type(): (t: byte)
      ensures 1 <= t <= 8
    {
      match this
      case S64 => 1 case U64 => 2 case S32 => 3 case U32 => 4
      case S16 => 5 case U16 => 6 case U8 => 7 case S8 => 8
    }

    function Width(): (w: nat)
      ensures 1 <= w <= 8
    {
      match this
      case S64 => 8 case U64 => 8 case S32 => 4 case U32 => 4
      case S16 => 2 case U16 => 2 case U8 => 1 case S8 => 1
    }

    predicate Signed() {
      S64? || S32? || S16? || S8?
    }

    /** The integers the class can hold. */
    predicate Holds(n: int) {
      if Signed() then -2 * n <= Pow256(Width()) && 2 * n < Pow256(Width()) else 0 <= n < Pow256(Width())
    }

    /** The unsigned integer with the same bits (two's complement). */
    function ToBits(n: int): (u: nat)
      requires Holds(n)
      ensures u < Pow256(Width())
    {
      if n < 0 then n + Pow256(Width()) else n
    }

    /** The integer that has these bits. */
    function FromBits(u: nat): (n: int)
      requires u < Pow256(Width())
      ensures Holds(n) && ToBits(n) == u
    {
      if Signed() && 2 * u >= Pow256(Width()) then u - Pow256(Width()) else u
    }
  }

  datatype Value =
    | Undefined(raw: seq<byte>)
    | Integer(kind: IntKind, num: int)
    | Str(text: seq<byte>)
    | Arr(elems: seq<Value>)

  function KindOf(t: byte): (k: IntKind)
    requires 1 <= t <= 8
    ensures k.Type() == t
  {
    match t
    case 1 => S64 case 2 => U64 case 3 => S32 case 4 => U32
    case 5 => S16 case 6 => U16 case 7 => U8 case _ => S8
  }

  function TypeOf(v: Value): byte {
    match v
    case Undefined(_) => 0
    case Integer(k, _) => k.Type()
    case Str(_) => 9
    case Arr(_) => 10
  }

  /** The value a new object of type t starts with. Unknown types become undefined values, so type 0. */
  function CreateValue(t: byte): (v: Value)
    ensures TypeOf(v) == if t <= 10 then t else 0
  {
    if 1 <= t <= 8 then Integer(KindOf(t), 0)
    else if t == 9 then Str([])
    else if t == 10 then Arr([])
    else Undefined([])
  }

  /** Every integer lies inside the range of its class. */
  predicate Sound(v: Value)
    decreases v, 0
  {
    match v
    case Integer(k, n) => k.Holds(n)
    case Arr(es) => SoundAll(es)
    case _ => true
  }

  predicate SoundAll(es: seq<Value>)
    decreases es, 1
  {
    es == [] || (Sound(es[0]) && SoundAll(es[1..]))
  }

  // Sizes, as computed by GetSize and GetSizeInternal

  function PayloadSize(v: Value): (n: nat)
    decreases v, 0
  {
    match v
    case Undefined(raw) => |raw|
    case Integer(k, _) => k.Width()
    case Str(text) => |text| + 4
    case Arr(es) => 4 + SizeAll(es)
  }

  function Size(v: Value): (n: nat)
    decreases v, 1
  {
    PayloadSize(v) + 5
  }

  function SizeAll(es: seq<Value>): (n: nat)
    ensures n >= 5 * |es|
    decreases es, 2
  {
    if es == [] then 0 else Size(es[0]) + SizeAll(es[1..])
  }

  /** A value the wire format can carry: its size is a uint32. */
  predicate Fits(v: Value) {
    Sound(v) && Size(v) < TWO_32
  }

  // The bytes, as produced by Serialize and SerializeInternal

  function Payload(v: Value): (s: seq<byte>)
    requires Sound(v)
    decreases v, 0
  {
    match v
    case Undefined(raw) => raw
    case Integer(k, n) => LE(k.ToBits(n), k.Width())
    case Str(text) => LE(|text|, 4) + text
    case Arr(es) => LE(|es|, 4) + EncodeAll(es)
  }

  function Encode(v: Value): (s: seq<byte>)
    requires Sound(v)
    decreases v, 1
  {
    [TypeOf(v)] + LE(PayloadSize(v), 4) + Payload(v)
  }

  function EncodeAll(es: seq<Value>): (s: seq<byte>)
    requires SoundAll(es)
    decreases es, 2
  {
    if es == [] then [] else Encode(es[0]) + EncodeAll(es[1..])
  }

  /** The envelope: type number, length of the payload, payload. */
  lemma WireHeader(v: Value)
    requires Fits(v)
    ensures |Encode(v)| == Size(v) >= 5 && FromLE(Encode(v)[1..5]) == Size(v) - 5 && Encode(v)[5..] == Payload(v)
    ensures Encode(v)[0] == match v
                            case Undefined(_) => 0
                            case Integer(S64, _) => 1 case Integer(U64, _) => 2
                            case Integer(S32, _) => 3 case Integer(U32, _) => 4
                            case Integer(S16, _) => 5 case Integer(U16, _) => 6
                            case Integer(U8, _) => 7 case Integer(S8, _) => 8
                            case Str(_) => 9
                            case Arr(_) => 10
  {
    hide LE, FromLE, Payload;
    EncodeSize(v);
    FieldReadsBack(PayloadSize(v));
    assert Encode(v)[1..5] == LE(PayloadSize(v), 4);
  }

  /** The payloads: raw bytes, two's complement, counted text, counted elements. */
  lemma WirePayload(v: Value)
    requires Fits(v)
    ensures v.Undefined? ==> Payload(v) == v.raw
    ensures v.Integer? ==> FromLE(Payload(v)) == if v.num < 0 then v.num + Pow256(|Payload(v)|) else v.num
    ensures v.Str? ==> |Payload(v)| >= 4 && FromLE(Payload(v)[..4]) == |v.text| && Payload(v)[4..] == v.text
    ensures v.Arr? ==>
              |Payload(v)| >= 4 && FromLE(Payload(v)[..4]) == |v.elems| && Payload(v)[4..] == EncodeAll(v.elems)
  {
    hide LE, FromLE;
    match v
    case Integer(k, n) => ReadsBack(k.ToBits(n), k.Width());
    case Str(text) =>
      assert |text| + 9 == Size(v);
      FieldReadsBack(|text|);
      assert Payload(v)[..4] == LE(|text|, 4);
    case Arr(es) =>
      assert 9 + SizeAll(es) == Size(v);
      FieldReadsBack(|es|);
      assert Payload(v)[..4] == LE(|es|, 4);
    case _ =>
  }

  /** How wide the integer classes are on the wire: 64, 32, 16 and 8 bits behind the five bytes of the envelope. */
  lemma IntegerWire(v: Value)
    requires Sound(v) && v.Integer?
    ensures var t := Encode(v)[0];
            1 <= t <= 8 && |Encode(v)| == if t <= 2 then 13 else if t <= 4 then 9 else if t <= 6 then 7 else 6
    ensures |Payload(v)| == |Encode(v)| - 5 && |Encode(v)| == Size(v)
  {
    EncodeSize(v);
  }

  /** What each integer class can hold. */
  lemma IntegerRanges(n: int)
    ensures S64.Holds(n) <==> -0x8000_0000_0000_0000 <= n < 0x8000_0000_0000_0000
    ensures U64.Holds(n) <==> 0 <= n < 0x1_0000_0000_0000_0000
    ensures S32.Holds(n) <==> -0x8000_0000 <= n < 0x8000_0000
    ensures U32.Holds(n) <==> 0 <= n < 0x1_0000_0000
    ensures S16.Holds(n) <==> -0x8000 <= n < 0x8000
    ensures U16.Holds(n) <==> 0 <= n < 0x1_0000
    ensures S8.Holds(n) <==> -0x80 <= n < 0x80
    ensures U8.Holds(n) <==> 0 <= n < 0x100
  {
    WordSizes();
  }

  /** A new object holds zero, or nothing. */
  lemma NewValueIsEmpty(t: byte)
    ensures Sound(CreateValue(t))
    ensures match CreateValue(t)
            case Integer(_, n) => n == 0 && 1 <= t <= 8
            case Str(text) => text == [] && t == 9
            case Arr(es) => es == [] && t == 10
            case Undefined(raw) => raw == [] && (t == 0 || t > 10)
  {
    WordSizes();
  }

  /** GetSize is the number of bytes Serialize writes. */
  lemma {:induction false} EncodeSize(v: Value)
    requires Sound(v)
    ensures |Payload(v)| == PayloadSize(v) && |Encode(v)| == Size(v)
    decreases v, 1
  {
    if v.Arr? { EncodeAllSize(v.elems); }
  }

  lemma {:induction false} EncodeAllSize(es: seq<Value>)
    requires SoundAll(es)
    ensures |EncodeAll(es)| == SizeAll(es)
    decreases es, 2
  {
    if es != [] {
      EncodeSize(es[0]);
      EncodeAllSize(es[1..]);
    }
  }

  lemma {:induction false} SizeAllAppend(es: seq<Value>, e: Value)
    ensures SizeAll(es + [e]) == SizeAll(es) + Size(e)
  {
    if es == [] {
      assert es + [e] == [e];
    } else {
      SizeAllAppend(es[1..], e);
      assert (es + [e])[1..] == es[1..] + [e];
    }
  }

  lemma {:induction false} SoundAllEach(es: seq<Value>)
    ensures SoundAll(es) <==> forall i | 0 <= i < |es| :: Sound(es[i])
  {
    if es != [] {
      SoundAllEach(es[1..]);
      assert forall i | 0 < i < |es| :: es[i] == es[1..][i - 1];
    }
  }

  lemma {:induction false} EncodeAllAppend(es: seq<Value>, e: Value)
    requires SoundAll(es) && Sound(e)
    ensures SoundAll(es + [e]) && EncodeAll(es + [e]) == EncodeAll(es) + Encode(e)
  {
    if es == [] {
      assert es + [e] == [e];
    } else {
      EncodeAllAppend(es[1..], e);
      assert (es + [e])[1..] == es[1..] + [e];
    }
  }

  /** Writing element i behind the elements before it. */
  lemma PrefixStep(es: seq<Value>, i: nat)
    requires i < |es| && SoundAll(es)
    ensures SoundAll(es[..i]) && SoundAll(es[..i + 1]) && Sound(es[i])
    ensures EncodeAll(es[..i + 1]) == EncodeAll(es[..i]) + Encode(es[i])
    ensures |EncodeAll(es[..i])| == SizeAll(es[..i]) && |Encode(es[i])| == Size(es[i])
    ensures SizeAll(es[..i + 1]) == SizeAll(es[..i]) + Size(es[i]) <= SizeAll(es)
  {
    hide Sound, Encode, Size;
    SoundAllEach(es);
    SoundAllEach(es[..i]);
    EncodeAllAppend(es[..i], es[i]);
    EncodeAllSize(es[..i]);
    EncodeSize(es[i]);
    SizeStep(es, i);
    assert es[..i + 1] == es[..i] + [es[i]];
  }

  lemma SizeStep(es: seq<Value>, i: nat)
    requires i < |es|
    ensures SizeAll(es[..i + 1]) == SizeAll(es[..i]) + Size(es[i]) <= SizeAll(es)
  {
    hide Size, SizeAll;
    SizeAllAppend(es[..i], es[i]);
    assert es[..i + 1] == es[..i] + [es[i]];
    SizeAllConcat(es[..i + 1], es[i + 1..]);
    assert es == es[..i + 1] + es[i + 1..];
  }

  lemma {:induction false} SizeAllConcat(es: seq<Value>, fs: seq<Value>)
    ensures SizeAll(es + fs) == SizeAll(es) + SizeAll(fs)
  {
    hide Size;
    if es == [] {
      assert es + fs == fs;
    } else {
      SizeAllConcat(es[1..], fs);
      assert (es + fs)[1..] == es[1..] + fs;
    }
  }

  // Copies, as made by CreateValue followed by CopyFrom

  /** A copy through CopyFrom: ValueUndefined::CopyFrom never sets the length, so raw payloads are dropped. */
  function Copied(v: Value): (c: Value)
    decreases v, 0
  {
    match v
    case Undefined(_) => Undefined([])
    case Arr(es) => Arr(CopiedAll(es))
    case _ => v
  }

  function CopiedAll(es: seq<Value>): (cs: seq<Value>)
    ensures |cs| == |es|
    ensures forall i | 0 <= i < |es| :: cs[i] == Copied(es[i])
    decreases es, 1
  {
    if es == [] then [] else [Copied(es[0])] + CopiedAll(es[1..])
  }

  /** No undefined value in the tree carries bytes. */
  predicate NoRawBytes(v: Value)
    decreases v, 0
  {
    match v
    case Undefined(raw) => raw == []
    case Arr(es) => NoRawBytesAll(es)
    case _ => true
  }

  predicate NoRawBytesAll(es: seq<Value>)
    decreases es, 1
  {
    es == [] || (NoRawBytes(es[0]) && NoRawBytesAll(es[1..]))
  }

  /** A copy equals its source exactly when the source holds no nonempty undefined value. */
  lemma {:induction false} CopyIsExact(v: Value)
    ensures Copied(v) == v <==> NoRawBytes(v)
    decreases v, 0
  {
    if v.Arr? { CopyAllIsExact(v.elems); }
  }

  lemma {:induction false} CopyAllIsExact(es: seq<Value>)
    ensures CopiedAll(es) == es <==> NoRawBytesAll(es)
    decreases es, 1
  {
    if es != [] {
      CopyIsExact(es[0]);
      CopyAllIsExact(es[1..]);
      assert es == [es[0]] + es[1..];
      assert CopiedAll(es)[1..] == CopiedAll(es[1..]);
    }
  }

  /** w has the structure and the data of v, whatever bytes their undefined values hold. */
  predicate SameButRaw(v: Value, w: Value)
    decreases v, 0
  {
    match v
    case Undefined(_) => w.Undefined?
    case Arr(es) => w.Arr? && SameButRawAll(es, w.elems)
    case _ => v == w
  }

  predicate SameButRawAll(vs: seq<Value>, ws: seq<Value>)
    decreases vs, 1
  {
    |vs| == |ws| && (vs == [] || (SameButRaw(vs[0], ws[0]) && SameButRawAll(vs[1..], ws[1..])))
  }

  /** What a copy is: the source with every undefined value emptied, and nothing else changed. */
  lemma {:induction false} CopyIsUnique(v: Value, w: Value)
    ensures w == Copied(v) <==> SameButRaw(v, w) && NoRawBytes(w)
    decreases v, 0
  {
    if v.Arr? && w.Arr? { CopyAllIsUnique(v.elems, w.elems); }
  }

  lemma {:induction false} CopyAllIsUnique(vs: seq<Value>, ws: seq<Value>)
    ensures ws == CopiedAll(vs) <==> SameButRawAll(vs, ws) && NoRawBytesAll(ws)
    decreases vs, 1
  {
    if vs != [] && ws != [] {
      CopyIsUnique(vs[0], ws[0]);
      CopyAllIsUnique(vs[1..], ws[1..]);
      assert ws == [ws[0]] + ws[1..];
      assert CopiedAll(vs)[1..] == CopiedAll(vs[1..]);
    }
  }

  /** A copy is never larger than its source and stays inside the integer ranges; copying again changes nothing. */
  lemma {:induction false} CopyFits(v: Value)
    ensures Size(Copied(v)) <= Size(v)
    ensures Sound(v) ==> Sound(Copied(v))
    ensures NoRawBytes(Copied(v))
    decreases v, 0
  {
    if v.Arr? { CopyAllFits(v.elems); }
  }

  lemma {:induction false} CopyAllFits(es: seq<Value>)
    ensures SizeAll(CopiedAll(es)) <= SizeAll(es)
    ensures SoundAll(es) ==> SoundAll(CopiedAll(es))
    ensures NoRawBytesAll(CopiedAll(es))
    decreases es, 1
  {
    if es != [] {
      CopyFits(es[0]);
      CopyAllFits(es[1..]);
      assert CopiedAll(es)[1..] == CopiedAll(es[1..]);
    }
  }
}
