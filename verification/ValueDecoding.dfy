/**
 Deserializing a value from the middle of a buffer.

 The parsers take a pointer and a length, and some of their reads are not covered by a length check.
 Here a parser gets the whole buffer, the offset the pointer stands at, and the length it was told.
 A read past the end of the buffer is the outcome Overrun, so nothing is assumed about what was read there.
 Every uint32 sum that can wrap is reduced modulo 2^32.
 */
module ValueDecoding {
  import opened Bytes
  import opened Values

  datatype Parsed<+T> =
    | Done(value: T, used: nat)  // the C++ function returned `used`
    | Rejected                   // it returned 0
    | Overrun                    // it read outside the buffer

  /** Value::Deserialize called on an object that holds `prior`. */
  function DecodeValue(prior: Value, buf: seq<byte>, off: nat, length: nat): (r: Parsed<Value>)
    requires |buf| < TWO_32 && off <= |buf|
    ensures r.Done? ==> 5 <= r.used <= |buf| - off
    decreases |buf| - off, 0
  {
    if length < 5 then Rejected
    else if off == |buf| then Overrun
    else if buf[off] != TypeOf(prior) then Rejected
    else if off + 5 > |buf| then Overrun
    else
      var len := FromLE(buf[off + 1..off + 5]);
      if (len + 5) % TWO_32 > length then Rejected
      else
        match DecodePayload(prior, buf, off + 5, len)
        case Done(v, n) => Done(v, (n + 5) % TWO_32)
        case Overrun => Overrun
  }

  /** DeserializeInternal. Its own failure is Done with 0 bytes: the caller adds 5 to whatever it returns. */
  function DecodePayload(prior: Value, buf: seq<byte>, off: nat, len: nat): (r: Parsed<Value>)
    requires |buf| < TWO_32 && off <= |buf|
    ensures !r.Rejected?
    ensures r.Done? ==> r.used <= |buf| - off
    decreases |buf| - off, 2
  {
    match prior
    case Integer(k, _) =>
      if len < k.Width() then Done(prior, 0)
      else if off + k.Width() > |buf| then Overrun
      else Done(Integer(k, k.FromBits(FromLE(buf[off..off + k.Width()]))), k.Width())
    case Undefined(_) =>
      if len == 0 then Done(prior, 0)
      else if off + len > |buf| then Overrun
      else Done(Undefined(buf[off..off + len]), len)
    case Str(_) =>
      if len < 4 then Done(Str([]), 0)
      else if off + 4 > |buf| then Overrun
      else
        var n := FromLE(buf[off..off + 4]);
        if len != (n + 4) % TWO_32 then Done(Str([]), 0)
        else if off + 4 + n > |buf| then Overrun
        else Done(Str(buf[off + 4..off + 4 + n]), len)
    case Arr(_) =>
      if off + 4 > |buf| then Overrun
      else
        match DecodeElems(buf, off, len, 4, FromLE(buf[off..off + 4]))
        case Done(es, end) => Done(Arr(es), end)
        case Rejected => Done(Arr([]), 0)
        case Overrun => Overrun
  }

  /** The element loop of ValueArr::DeserializeInternal, from `readOffset` on with `count` elements to go. */
  function DecodeElems(buf: seq<byte>, off: nat, len: nat, readOffset: nat, count: nat): (r: Parsed<seq<Value>>)
    requires |buf| < TWO_32 && off + readOffset <= |buf|
    ensures r.Done? ==> |r.value| == count && readOffset + 5 * count <= r.used <= |buf| - off
    decreases |buf| - off - readOffset, 1, count
  {
    if count == 0 then Done([], readOffset)
    else if readOffset > len then Rejected
    else
      var at := off + readOffset;
      if at == |buf| then Overrun
      else
        match DecodeValue(CreateValue(buf[at]), buf, at, len - readOffset)
        case Done(v, n) =>
          (match DecodeElems(buf, off, len, readOffset + n, count - 1)
           case Done(vs, end) => Done([v] + vs, end)
           case failed => failed)
        case Rejected => Rejected
        case Overrun => Overrun
  }

  // What the parser does on bytes that Encode wrote

  /** An object that can receive v: it has v's type, and it is empty if v is the empty undefined value. */
  predicate CanReceive(prior: Value, v: Value) {
    TypeOf(prior) == TypeOf(v) && (v == Undefined([]) ==> prior == v)
  }

  /** Where the bytes of v stand in a buffer. */
  predicate At(buf: seq<byte>, off: nat, s: seq<byte>) {
    off + |s| <= |buf| && buf[off..off + |s|] == s
  }

  lemma AtParts(buf: seq<byte>, off: nat, s: seq<byte>, t: seq<byte>)
    requires At(buf, off, s + t)
    ensures At(buf, off, s) && At(buf, off + |s|, t)
  {
    var whole := buf[off..off + |s + t|];
    assert buf[off..off + |s|] == whole[..|s|] == s;
    assert buf[off + |s|..off + |s| + |t|] == whole[|s|..] == t;
  }

  lemma IntegerRoundTrip(prior: Value, v: Value, buf: seq<byte>, off: nat)
    requires |buf| < TWO_32 && off <= |buf| && v.Integer? && Sound(v) && TypeOf(prior) == TypeOf(v)
    requires At(buf, off, Payload(v))
    ensures DecodePayload(prior, buf, off, PayloadSize(v)) == Done(v, PayloadSize(v))
  {
    hide FromLE, LE, DecodeElems, Pow256;
    var k := v.kind;
    assert k.FromBits(k.ToBits(v.num)) == v.num;
    ReadsBack(k.ToBits(v.num), k.Width());
  }

  lemma StrRoundTrip(prior: Value, text: seq<byte>, buf: seq<byte>, off: nat)
    requires |buf| < TWO_32 && prior.Str?
    requires At(buf, off, LE(|text|, 4) + text)
    ensures DecodePayload(prior, buf, off, |text| + 4) == Done(Str(text), |text| + 4)
  {
    AtParts(buf, off, LE(|text|, 4), text);
    FieldReadsBack(|text|);
  }

  lemma {:induction false} PayloadRoundTrip(prior: Value, v: Value, buf: seq<byte>, off: nat)
    requires |buf| < TWO_32 && Fits(v) && CanReceive(prior, v)
    requires At(buf, off, Payload(v))
    ensures DecodePayload(prior, buf, off, PayloadSize(v)) == Done(v, PayloadSize(v))
    decreases v, 0
  {
    match v
    case Undefined(raw) =>
    case Integer(_, _) => IntegerRoundTrip(prior, v, buf, off);
    case Str(text) => StrRoundTrip(prior, text, buf, off);
    case Arr(es) =>
      AtParts(buf, off, LE(|es|, 4), EncodeAll(es));
      FieldReadsBack(|es|);
      ElemsRoundTrip(es, buf, off, PayloadSize(v), 4);
  }

  /** The header of an encoded value, and where its payload stands. */
  lemma HeaderReads(v: Value, buf: seq<byte>, off: nat)
    requires Fits(v) && At(buf, off, Encode(v))
    ensures off + 5 <= |buf| && buf[off] == TypeOf(v) && FromLE(buf[off + 1..off + 5]) == PayloadSize(v)
    ensures At(buf, off + 5, Payload(v))
  {
    hide Payload, FromLE, LE;
    EncodeSize(v);
    AtParts(buf, off, [TypeOf(v)] + LE(PayloadSize(v), 4), Payload(v));
    AtParts(buf, off, [TypeOf(v)], LE(PayloadSize(v), 4));
    FieldReadsBack(PayloadSize(v));
    assert buf[off] == buf[off..off + 1][0];
  }

  lemma {:induction false} ValueRoundTrip(prior: Value, v: Value, buf: seq<byte>, off: nat, length: nat)
    requires |buf| < TWO_32 && Fits(v) && CanReceive(prior, v)
    requires At(buf, off, Encode(v)) && Size(v) <= length
    ensures DecodeValue(prior, buf, off, length) == Done(v, Size(v))
    decreases v, 1
  {
    hide DecodePayload, Payload, FromLE, LE, Encode;
    HeaderReads(v, buf, off);
    PayloadRoundTrip(prior, v, buf, off + 5);
  }

  /** The first byte of an encoded value creates an object that can receive it. */
  lemma FirstByteCreates(v: Value, buf: seq<byte>, off: nat)
    requires Sound(v) && At(buf, off, Encode(v))
    ensures off + 5 <= |buf| && CanReceive(CreateValue(buf[off]), v)
  {
    EncodeSize(v);
    assert buf[off] == buf[off..off + Size(v)][0] == TypeOf(v);
  }

  lemma ElemsStep(es: seq<Value>, buf: seq<byte>, off: nat, len: nat, readOffset: nat, next: nat, end: nat)
    requires |buf| < TWO_32 && es != [] && readOffset <= len && off + readOffset < |buf|
    requires readOffset <= next <= |buf| - off
    requires DecodeValue(CreateValue(buf[off + readOffset]), buf, off + readOffset, len - readOffset)
             == Done(es[0], next - readOffset)
    requires DecodeElems(buf, off, len, next, |es[1..]|) == Done(es[1..], end)
    ensures DecodeElems(buf, off, len, readOffset, |es|) == Done(es, end)
  {
    assert es == [es[0]] + es[1..];
  }

  /** The first element is decoded, and the others stand right behind it. */
  lemma {:induction false} ElemRoundTrip(es: seq<Value>, buf: seq<byte>, at: nat, length: nat)
    requires |buf| < TWO_32 && es != [] && SoundAll(es) && SizeAll(es) <= length
    requires At(buf, at, EncodeAll(es))
    ensures at + SizeAll(es) <= |buf|
    ensures DecodeValue(CreateValue(buf[at]), buf, at, length) == Done(es[0], Size(es[0]))
    ensures At(buf, at + Size(es[0]), EncodeAll(es[1..]))
    decreases es, 2
  {
    EncodeAllSize(es);
    EncodeSize(es[0]);
    AtParts(buf, at, Encode(es[0]), EncodeAll(es[1..]));
    FirstByteCreates(es[0], buf, at);
    ValueRoundTrip(CreateValue(buf[at]), es[0], buf, at, length);
  }

  lemma {:induction false} ElemsRoundTrip(es: seq<Value>, buf: seq<byte>, off: nat, len: nat, readOffset: nat)
    requires |buf| < TWO_32 && SoundAll(es) && readOffset + SizeAll(es) <= len
    requires At(buf, off + readOffset, EncodeAll(es))
    ensures DecodeElems(buf, off, len, readOffset, |es|) == Done(es, readOffset + SizeAll(es))
    decreases es, 3
  {
    if es != [] {
      var at, next, end := off + readOffset, readOffset + Size(es[0]), readOffset + SizeAll(es);
      ElemRoundTrip(es, buf, at, len - readOffset);
      assert DecodeElems(buf, off, len, next, |es[1..]|) == Done(es[1..], end) by {
        assert at + Size(es[0]) == off + next;
        ElemsRoundTrip(es[1..], buf, off, len, next);
      }
      ElemsStep(es, buf, off, len, readOffset, next, end);
    }
  }

  /**
   Deserializing what Serialize wrote, with anything behind it, gives the value back and consumes exactly GetSize,
   except in one case: an undefined object that already holds bytes keeps them when it is sent an empty value.
   */
  lemma ValueRoundTripExact(prior: Value, v: Value, rest: seq<byte>)
    requires Fits(v) && TypeOf(prior) == TypeOf(v) && |Encode(v) + rest| < TWO_32
    ensures DecodeValue(prior, Encode(v) + rest, 0, |Encode(v) + rest|) == Done(v, Size(v))
            <==> (v == Undefined([]) ==> prior == v)
  {
    var buf := Encode(v) + rest;
    EncodeSize(v);
    assert buf[0..Size(v)] == Encode(v);
    if CanReceive(prior, v) {
      ValueRoundTrip(prior, v, buf, 0, |buf|);
    } else {
      AtParts(buf, 0, [TypeOf(v)], LE(0, 4));
      assert FromLE(buf[1..5]) == 0 by { FieldReadsBack(0); }
      assert DecodePayload(prior, buf, 5, 0) == Done(prior, 0);
    }
  }

  // Unique decodability

  /** Two encodings at the same place in a buffer are the same value. */
  lemma SamePlaceSameValue(v: Value, w: Value, s: seq<byte>, t: seq<byte>)
    requires Fits(v) && Fits(w) && Encode(v) + s == Encode(w) + t
    ensures v == w && s == t
  {
    EncodeSize(v);
    EncodeSize(w);
    var all := Encode(v) + s;
    var buf := all[..if Size(v) < Size(w) then Size(w) else Size(v)];
    assert buf[0..Size(v)] == all[..Size(v)] == Encode(v);
    assert buf[0..Size(w)] == all[..Size(w)] == Encode(w);
    FirstByteCreates(v, buf, 0);
    FirstByteCreates(w, buf, 0);
    ValueRoundTrip(CreateValue(buf[0]), v, buf, 0, |buf|);
    ValueRoundTrip(CreateValue(buf[0]), w, buf, 0, |buf|);
    assert s == all[Size(v)..] == t;
  }

  /** No serialized value is a proper prefix of another, and distinct values serialize differently. */
  lemma PrefixFree(v: Value, w: Value)
    requires Fits(v) && Fits(w)
    ensures Encode(v) <= Encode(w) <==> v == w
  {
    if Encode(v) <= Encode(w) {
      var t := Encode(w)[|Encode(v)|..];
      assert Encode(v) + t == Encode(w) + [];
      SamePlaceSameValue(v, w, t, []);
    }
  }

  /** A concatenation of serialized values splits in only one way. */
  lemma {:induction false} UniqueSplit(vs: seq<Value>, ws: seq<Value>)
    requires forall i | 0 <= i < |vs| :: Fits(vs[i])
    requires forall i | 0 <= i < |ws| :: Fits(ws[i])
    requires SoundAll(vs) && SoundAll(ws)
    ensures EncodeAll(vs) == EncodeAll(ws) <==> vs == ws
  {
    EncodeAllSize(vs);
    EncodeAllSize(ws);
    if vs != [] && ws != [] {
      UniqueSplit(vs[1..], ws[1..]);
      if EncodeAll(vs) == EncodeAll(ws) {
        SamePlaceSameValue(vs[0], ws[0], EncodeAll(vs[1..]), EncodeAll(ws[1..]));
        assert vs == [vs[0]] + vs[1..] && ws == [ws[0]] + ws[1..];
      }
    }
  }

  // Arbitrary bytes

  /**
   When Deserialize returns 0 on a slice inside the buffer: the slice has no room for the envelope, the type byte is
   not the object's, or the declared length does not fit the slice. A payload that cannot be parsed is not among the
   reasons.
   */
  lemma RejectedExactly(prior: Value, buf: seq<byte>, off: nat, length: nat)
    requires off + length <= |buf| < TWO_32
    ensures DecodeValue(prior, buf, off, length).Rejected? <==>
            || length < 5
            || buf[off] != TypeOf(prior)
            || (FromLE(buf[off + 1..off + 5]) + 5) % 0x1_0000_0000 > length
  {
    hide DecodePayload;
  }

  /**
   What an accepted slice that is not an array's gives, whatever its bytes are. It is never read past its end. Either
   the bytes used are exactly what Serialize writes for the result, but for the length field when an integer's payload
   is too long; or the payload was not acceptable and only the envelope counts as used.
   */
  lemma AcceptedScalar(prior: Value, buf: seq<byte>, off: nat, length: nat)
    requires off + length <= |buf| < TWO_32 && 5 <= length && !prior.Arr? && Sound(prior)
    requires buf[off] == TypeOf(prior) && FromLE(buf[off + 1..off + 5]) + 5 <= length
    ensures var r, len := DecodeValue(prior, buf, off, length), FromLE(buf[off + 1..off + 5]);
            && r.Done? && Sound(r.value) && TypeOf(r.value) == TypeOf(prior)
            && (match prior
                case Integer(_, _) =>
                  if len < Size(prior) - 5 then r == Done(prior, 5)
                  else r.used == Size(prior) && At(buf, off + 5, Payload(r.value))
                case Str(_) =>
                  if len >= 4 && FromLE(buf[off + 5..off + 9]) == len - 4
                  then r.used == 5 + len && At(buf, off, Encode(r.value))
                  else r == Done(Str([]), 5)
                case Undefined(_) =>
                  if len > 0 then r.used == 5 + len && At(buf, off, Encode(r.value)) else r == Done(prior, 5)
                case Arr(_) => true)
  {
    hide LE, FromLE, Pow256, DecodePayload, Encode, Payload, Size;
    var len := FromLE(buf[off + 1..off + 5]);
    FieldBounds(buf[off + 1..off + 5]);
    match prior
    case Integer(_, _) => AcceptedInteger(prior, buf, off, len);
    case Str(_) => AcceptedStr(prior, buf, off, len);
    case Undefined(_) => AcceptedUndefined(prior, buf, off, len);
  }

  lemma AcceptedInteger(prior: Value, buf: seq<byte>, off: nat, len: nat)
    requires off + 5 + len <= |buf| < TWO_32 && prior.Integer? && Sound(prior)
    ensures var r := DecodePayload(prior, buf, off + 5, len);
            if len < Size(prior) - 5 then r == Done(prior, 0)
            else && r.Done? && Sound(r.value) && TypeOf(r.value) == TypeOf(prior)
                 && r.used + 5 == Size(prior) && At(buf, off + 5, Payload(r.value))
  {
    hide LE, FromLE, Pow256;
    var at, w := off + 5, prior.kind.Width();
    if len >= w {
      ReadInteger(prior.kind, buf[at..at + w]);
      var v := Integer(prior.kind, prior.kind.FromBits(FromLE(buf[at..at + w])));
      assert DecodePayload(prior, buf, at, len) == Done(v, w);
      assert Payload(v) == buf[at..at + w];
      assert At(buf, at, Payload(v));
      assert Sound(v);
      assert TypeOf(v) == TypeOf(prior);
      assert Size(prior) == w + 5;
    }
  }

  lemma AcceptedStr(prior: Value, buf: seq<byte>, off: nat, len: nat)
    requires off + 5 + len <= |buf| < TWO_32 && prior.Str?
    requires buf[off] == TypeOf(prior) && FromLE(buf[off + 1..off + 5]) == len
    ensures var r := DecodePayload(prior, buf, off + 5, len);
            && r.Done? && r.value.Str?
            && if len >= 4 && FromLE(buf[off + 5..off + 9]) == len - 4
               then r.used == len && At(buf, off, Encode(r.value))
               else r == Done(Str([]), 0)
  {
    hide LE, FromLE, Encode;
    var at := off + 5;
    if len >= 4 {
      FieldBounds(buf[at..at + 4]);
      if FromLE(buf[at..at + 4]) == len - 4 {
        WritesBack(buf[at..at + 4]);
        assert buf[at..at + len] == buf[at..at + 4] + buf[at + 4..at + len];
        EnvelopeWrites(Str(buf[at + 4..at + len]), buf, off);
      }
    }
  }

  lemma AcceptedUndefined(prior: Value, buf: seq<byte>, off: nat, len: nat)
    requires off + 5 + len <= |buf| < TWO_32 && prior.Undefined?
    requires buf[off] == TypeOf(prior) && FromLE(buf[off + 1..off + 5]) == len
    ensures var r := DecodePayload(prior, buf, off + 5, len);
            && r.Done? && r.value.Undefined?
            && if len > 0 then r.used == len && At(buf, off, Encode(r.value)) else r == Done(prior, 0)
  {
    hide FromLE, Encode;
    if len > 0 {
      EnvelopeWrites(Undefined(buf[off + 5..off + 5 + len]), buf, off);
    }
  }

  lemma ReadInteger(k: IntKind, s: seq<byte>)
    requires |s| == k.Width()
    ensures FromLE(s) < Pow256(k.Width())
    ensures var n := k.FromBits(FromLE(s)); k.Holds(n) && Payload(Integer(k, n)) == s
  {
    hide LE, FromLE, Pow256;
    WritesBack(s);
  }

  /** A slice whose header has the type and the length of v and whose payload is v's is what Serialize writes for v. */
  lemma EnvelopeWrites(v: Value, buf: seq<byte>, off: nat)
    requires Sound(v) && off + 5 <= |buf| && buf[off] == TypeOf(v)
    requires FromLE(buf[off + 1..off + 5]) == PayloadSize(v) && At(buf, off + 5, Payload(v))
    ensures At(buf, off, Encode(v))
  {
    hide LE, FromLE, Payload;
    EncodeSize(v);
    WritesBack(buf[off + 1..off + 5]);
    assert buf[off..off + Size(v)] == [buf[off]] + buf[off + 1..off + 5] + buf[off + 5..off + 5 + PayloadSize(v)];
  }

  /** An array whose elements cannot be parsed is accepted as the empty array, and only its envelope counts as used. */
  lemma AcceptedArray(prior: Value, buf: seq<byte>, off: nat, length: nat)
    requires off + length <= |buf| < TWO_32 && prior.Arr? && off + 9 <= |buf|
    requires DecodeValue(prior, buf, off, length).Done?
    ensures var r := DecodeValue(prior, buf, off, length);
            var elems := DecodeElems(buf, off + 5, FromLE(buf[off + 1..off + 5]), 4, FromLE(buf[off + 5..off + 9]));
            && (elems.Rejected? ==> r == Done(Arr([]), 5))
            && (!elems.Rejected? ==> elems.Done? && r == Done(Arr(elems.value), 5 + elems.used))
            && r.value.Arr? && (r.value.elems == [] || |r.value.elems| == FromLE(buf[off + 5..off + 9]))
  {
    hide DecodeElems, FromLE;
  }

  /** Where the elements of a parsed array start, relative to its payload, and where the last one ends. */
  function ElemCuts(buf: seq<byte>, off: nat, len: nat, readOffset: nat, count: nat): (cuts: seq<nat>)
    requires |buf| < TWO_32 && off + readOffset <= |buf|
    requires DecodeElems(buf, off, len, readOffset, count).Done?
    ensures |cuts| == count + 1 && cuts[0] == readOffset
    decreases count
  {
    if count == 0 then [readOffset]
    else
      var at := off + readOffset;
      var first := DecodeValue(CreateValue(buf[at]), buf, at, len - readOffset);
      [readOffset] + ElemCuts(buf, off, len, readOffset + first.used, count - 1)
  }

  /** Element i was parsed from its own start, up to the start of the next one, at least five bytes further on. */
  ghost predicate CutAt(es: seq<Value>, buf: seq<byte>, off: nat, len: nat, cuts: seq<nat>, i: nat)
    requires |buf| < TWO_32 && i < |es| && |cuts| == |es| + 1
  {
    && cuts[i] <= len && cuts[i] + 5 <= cuts[i + 1] <= |buf| - off
    && DecodeValue(CreateValue(buf[off + cuts[i]]), buf, off + cuts[i], len - cuts[i])
       == Done(es[i], cuts[i + 1] - cuts[i])
  }

  /** On arbitrary bytes the accepted elements tile the payload from readOffset to the offset returned. */
  lemma {:induction false} ElemsTile(buf: seq<byte>, off: nat, len: nat, readOffset: nat, count: nat)
    requires |buf| < TWO_32 && off + readOffset <= |buf|
    requires DecodeElems(buf, off, len, readOffset, count).Done?
    ensures var r := DecodeElems(buf, off, len, readOffset, count);
            var cuts := ElemCuts(buf, off, len, readOffset, count);
            cuts[count] == r.used && forall i | 0 <= i < count :: CutAt(r.value, buf, off, len, cuts, i)
    decreases count
  {
    hide DecodeValue;
    if count > 0 {
      var at := off + readOffset;
      var first := DecodeValue(CreateValue(buf[at]), buf, at, len - readOffset);
      var r := DecodeElems(buf, off, len, readOffset, count);
      var tail := DecodeElems(buf, off, len, readOffset + first.used, count - 1);
      var cuts := ElemCuts(buf, off, len, readOffset, count);
      var tailCuts := ElemCuts(buf, off, len, readOffset + first.used, count - 1);
      ElemsTile(buf, off, len, readOffset + first.used, count - 1);
      forall i | 0 <= i < count ensures CutAt(r.value, buf, off, len, cuts, i) {
        if i > 0 {
          assert CutAt(tail.value, buf, off, len, tailCuts, i - 1);
        }
      }
    }
  }

  /** The read offsets at which the loop calls Deserialize, the call that fails and ends the loop included. */
  ghost predicate Reached(buf: seq<byte>, off: nat, len: nat, readOffset: nat, count: nat, r: nat)
    requires |buf| < TWO_32 && off + readOffset <= |buf|
    decreases count
  {
    var at := off + readOffset;
    && count > 0 && readOffset <= len && at < |buf|
    && (r == readOffset
        || var first := DecodeValue(CreateValue(buf[at]), buf, at, len - readOffset);
           first.Done? && Reached(buf, off, len, readOffset + first.used, count - 1, r))
  }

  /** Of an accepted array, the offsets reached are the starts of its elements. */
  lemma {:induction false} ReachedAreCuts(buf: seq<byte>, off: nat, len: nat, readOffset: nat, count: nat, r: nat)
    requires |buf| < TWO_32 && off + readOffset <= |buf|
    requires DecodeElems(buf, off, len, readOffset, count).Done?
    ensures Reached(buf, off, len, readOffset, count, r)
            <==> r in ElemCuts(buf, off, len, readOffset, count)[..count]
    decreases count
  {
    hide DecodeValue;
    if count > 0 {
      var at := off + readOffset;
      var first := DecodeValue(CreateValue(buf[at]), buf, at, len - readOffset);
      var cuts := ElemCuts(buf, off, len, readOffset, count);
      var tail := ElemCuts(buf, off, len, readOffset + first.used, count - 1);
      ReachedAreCuts(buf, off, len, readOffset + first.used, count - 1, r);
      assert cuts[..count] == [readOffset] + tail[..count - 1];
    }
  }

  lemma {:induction false} ReachedInside(buf: seq<byte>, off: nat, len: nat, readOffset: nat, count: nat, r: nat)
    requires |buf| < TWO_32 && off + readOffset <= |buf| && Reached(buf, off, len, readOffset, count, r)
    ensures readOffset <= r <= len
    decreases count
  {
    hide DecodeValue;
    if r != readOffset {
      var at := off + readOffset;
      var first := DecodeValue(CreateValue(buf[at]), buf, at, len - readOffset);
      ReachedInside(buf, off, len, readOffset + first.used, count - 1, r);
    }
  }

  /**
   On arbitrary bytes whose header passes the length check: the payload lies inside the slice exactly when adding 5 to
   the declared length does not wrap, and then every element, accepted or not, is parsed from a slice at least nine
   bytes shorter than the array's own.
   */
  lemma NestedSlicesShrink(buf: seq<byte>, off: nat, length: nat, r: nat)
    requires |buf| < TWO_32 && off + 9 <= |buf| && 5 <= length < TWO_32
    requires var len := FromLE(buf[off + 1..off + 5]); (len + 5) % TWO_32 <= length
    ensures var len, count := FromLE(buf[off + 1..off + 5]), FromLE(buf[off + 5..off + 9]);
            && (len + 5 < TWO_32 <==> len + 5 <= length)
            && (len + 5 < TWO_32 && Reached(buf, off + 5, len, 4, count, r) ==> 0 <= len - r <= length - 9)
  {
    var len, count := FromLE(buf[off + 1..off + 5]), FromLE(buf[off + 5..off + 9]);
    FieldBounds(buf[off + 1..off + 5]);
    if Reached(buf, off + 5, len, 4, count, r) {
      ReachedInside(buf, off + 5, len, 4, count, r);
    }
  }

  /**
   A payload that declares more elements than it holds: the loop looks for the next one right behind the payload. At the
   end of the buffer that is a read outside it; otherwise the array is refused.
   */
  lemma {:induction false} TooFewElements(es: seq<Value>, buf: seq<byte>, off: nat, readOffset: nat, count: nat)
    requires |buf| < TWO_32 && SoundAll(es) && At(buf, off + readOffset, EncodeAll(es)) && |es| < count
    ensures var len := readOffset + SizeAll(es);
            && off + len <= |buf|
            && DecodeElems(buf, off, len, readOffset, count) == if off + len == |buf| then Overrun else Rejected
    decreases es
  {
    hide DecodeElems, DecodeValue, EncodeAll, Encode, Size, Sound;
    EncodeAllSize(es);
    var len, at := readOffset + SizeAll(es), off + readOffset;
    if es == [] {
      NoMoreElements(buf, off, readOffset, count);
    } else {
      var next := readOffset + Size(es[0]);
      ElemRoundTrip(es, buf, at, len - readOffset);
      TooFewElements(es[1..], buf, off, next, count - 1);
      FailureSpreads(buf, off, len, readOffset, count, es[0], next);
    }
  }

  lemma NoMoreElements(buf: seq<byte>, off: nat, len: nat, count: nat)
    requires off + len <= |buf| < TWO_32 && count > 0
    ensures DecodeElems(buf, off, len, len, count) == if off + len == |buf| then Overrun else Rejected
  {
  }

  lemma FailureSpreads(buf: seq<byte>, off: nat, len: nat, readOffset: nat, count: nat, v: Value, next: nat)
    requires |buf| < TWO_32 && readOffset <= len && off + readOffset < |buf| && count > 0
    requires readOffset <= next <= |buf| - off
    requires DecodeValue(CreateValue(buf[off + readOffset]), buf, off + readOffset, len - readOffset)
             == Done(v, next - readOffset)
    ensures var later := DecodeElems(buf, off, len, next, count - 1);
            && (later.Rejected? ==> DecodeElems(buf, off, len, readOffset, count).Rejected?)
            && (later.Overrun? ==> DecodeElems(buf, off, len, readOffset, count).Overrun?)
  {
    hide DecodeValue;
  }

  /** What was parsed without leaving the buffer does not depend on what lies behind the buffer. */
  lemma {:induction false} ValueExtends(prior: Value, buf: seq<byte>, more: seq<byte>, off: nat, length: nat)
    requires |buf + more| < TWO_32 && off <= |buf|
    ensures !DecodeValue(prior, buf, off, length).Overrun? ==>
              DecodeValue(prior, buf + more, off, length) == DecodeValue(prior, buf, off, length)
    decreases |buf| - off, 0
  {
    if length >= 5 && off + 5 <= |buf| {
      assert (buf + more)[off + 1..off + 5] == buf[off + 1..off + 5];
      PayloadExtends(prior, buf, more, off + 5, FromLE(buf[off + 1..off + 5]));
    }
  }

  lemma {:induction false} PayloadExtends(prior: Value, buf: seq<byte>, more: seq<byte>, off: nat, len: nat)
    requires |buf + more| < TWO_32 && off <= |buf|
    ensures !DecodePayload(prior, buf, off, len).Overrun? ==>
              DecodePayload(prior, buf + more, off, len) == DecodePayload(prior, buf, off, len)
    decreases |buf| - off, 2
  {
    assert forall lo, hi | 0 <= lo <= hi <= |buf| :: (buf + more)[lo..hi] == buf[lo..hi];
    if prior.Arr? && off + 4 <= |buf| {
      ElemsExtend(buf, more, off, len, 4, FromLE(buf[off..off + 4]));
    }
  }

  lemma {:induction false} ElemsExtend(buf: seq<byte>, more: seq<byte>, off: nat, len: nat, readOffset: nat, count: nat)
    requires |buf + more| < TWO_32 && off + readOffset <= |buf|
    ensures !DecodeElems(buf, off, len, readOffset, count).Overrun? ==>
              DecodeElems(buf + more, off, len, readOffset, count) == DecodeElems(buf, off, len, readOffset, count)
    decreases |buf| - off - readOffset, 1, count
  {
    var at := off + readOffset;
    if count > 0 && readOffset <= len && at < |buf| {
      ValueExtends(CreateValue(buf[at]), buf, more, at, len - readOffset);
      var first := DecodeValue(CreateValue(buf[at]), buf, at, len - readOffset);
      if first.Done? {
        ElemsExtend(buf, more, off, len, readOffset + first.used, count - 1);
      }
    }
  }
}
