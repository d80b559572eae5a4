/** Datums and requests: their bytes, their parsers, and the ordered map of a request's arguments. */
module Requests {
  import opened Bytes
  import opened Values
  import opened ValueDecoding

  datatype Datum = Datum(name: seq<byte>, value: Value)

  /** The contents of a Request object. */
  datatype Message = Message(id: nat, name: seq<byte>, args: seq<Datum>)

  // Sizes and bytes

  function DatumSize(d: Datum): (n: nat) {
    6 + |d.name| + Size(d.value)
  }

  function ArgsSize(args: seq<Datum>): (n: nat) {
    if args == [] then 0 else DatumSize(args[0]) + ArgsSize(args[1..])
  }

  function MessageSize(m: Message): (n: nat) {
    10 + |m.name| + ArgsSize(m.args)
  }

  predicate SoundArgs(args: seq<Datum>) {
    forall i | 0 <= i < |args| :: Sound(args[i].value)
  }

  /** Names whose length the two-byte field can hold. */
  predicate ShortArgNames(args: seq<Datum>) {
    forall i | 0 <= i < |args| :: |args[i].name| < TWO_16
  }

  predicate ShortNames(m: Message) {
    |m.name| < TWO_16 && ShortArgNames(m.args)
  }

  predicate DatumFits(d: Datum) {
    |d.name| < TWO_16 && Sound(d.value) && DatumSize(d) < TWO_32
  }

  /** A request whose id and size are uint32 and whose values are in range; names may still be too long. */
  predicate Sendable(m: Message) {
    m.id < TWO_32 && SoundArgs(m.args) && MessageSize(m) < TWO_32
  }

  predicate MessageFits(m: Message) {
    Sendable(m) && ShortNames(m)
  }

  function EncodeDatum(d: Datum): (s: seq<byte>)
    requires Sound(d.value)
  {
    LE(DatumSize(d), 4) + (LE(|d.name|, 2) + (d.name + Encode(d.value)))
  }

  function EncodeArgs(args: seq<Datum>): (s: seq<byte>)
    requires SoundArgs(args)
  {
    if args == [] then [] else EncodeDatum(args[0]) + EncodeArgs(args[1..])
  }

  function EncodeMessage(m: Message): (s: seq<byte>)
    requires SoundArgs(m.args)
  {
    LE(MessageSize(m), 4) + (LE(m.id, 4) + (LE(|m.name|, 2) + (m.name + EncodeArgs(m.args))))
  }

  lemma EncodeDatumSize(d: Datum)
    requires Sound(d.value)
    ensures |EncodeDatum(d)| == DatumSize(d)
  {
    EncodeSize(d.value);
  }

  lemma {:induction false} EncodeArgsSize(args: seq<Datum>)
    requires SoundArgs(args)
    ensures |EncodeArgs(args)| == ArgsSize(args)
  {
    if args != [] {
      EncodeDatumSize(args[0]);
      EncodeArgsSize(args[1..]);
    }
  }

  lemma EncodeMessageSize(m: Message)
    requires SoundArgs(m.args)
    ensures |EncodeMessage(m)| == MessageSize(m) >= 10
    ensures EncodeMessage(m)[..4] == LE(MessageSize(m), 4)
  {
    EncodeArgsSize(m.args);
  }

  // Parsing

  /** Datum::Deserialize on a new datum. The length handed to the value is a uint32 difference. */
  function DecodeDatum(buf: seq<byte>, off: nat, length: nat): (r: Parsed<Datum>)
    requires |buf| < TWO_32 && off <= |buf|
    ensures r.Done? ==> r.used <= length
  {
    if length < 6 then Rejected
    else if off + 6 > |buf| then Overrun
    else
      var total, n := FromLE(buf[off..off + 4]), FromLE(buf[off + 4..off + 6]);
      if length < total || n > total then Rejected
      else
        var at := off + 6 + n;
        if at >= |buf| then Overrun
        else
          match DecodeValue(CreateValue(buf[at]), buf, at, (total - 6 - n) % TWO_32)
          case Done(v, _) => Done(Datum(buf[off + 6..at], v), total)
          case Rejected => Rejected
          case Overrun => Overrun
  }

  /** The datum loop of Request::Deserialize. A datum that returns 0 ends the loop without failing the request. */
  function DecodeArgs(buf: seq<byte>, i: nat): (r: Parsed<seq<Datum>>)
    requires |buf| < TWO_32 && i <= |buf|
    ensures !r.Rejected?
    ensures r.Done? ==> i <= r.used <= |buf|
    decreases |buf| - i
  {
    if i == |buf| then Done([], i)
    else
      match DecodeDatum(buf, i, |buf| - i)
      case Overrun => Overrun
      case Rejected => Done([], i)
      case Done(d, n) =>
        if n == 0 then Done([], i)
        else
          match DecodeArgs(buf, i + n)
          case Done(ds, end) => Done([d] + ds, end)
          case Overrun => Overrun
  }

  /** Request::Deserialize on a buffer of exactly data_size bytes. */
  function DecodeMessage(buf: seq<byte>): (r: Parsed<Message>)
    requires |buf| < TWO_32
    ensures r.Done? ==> 10 <= r.used <= |buf|
  {
    if |buf| < 10 then Rejected
    else
      var total, id, n := FromLE(buf[..4]), FromLE(buf[4..8]), FromLE(buf[8..10]);
      if total > |buf| || n > |buf| then Rejected
      else if 10 + n > |buf| then Overrun
      else
        match DecodeArgs(buf, 10 + n)
        case Done(args, end) => Done(Message(id, buf[10..10 + n], args), end)
        case Overrun => Overrun
  }

  // Round trips

  /** Where the parts of a serialized datum stand. */
  lemma DatumLayout(d: Datum, buf: seq<byte>, off: nat)
    requires DatumFits(d) && At(buf, off, EncodeDatum(d))
    ensures off + DatumSize(d) <= |buf|
    ensures FromLE(buf[off..off + 4]) == DatumSize(d)
    ensures FromLE(buf[off + 4..off + 6]) == |d.name|
    ensures At(buf, off + 6, d.name)
    ensures At(buf, off + 6 + |d.name|, Encode(d.value))
  {
    var v, n := d.value, |d.name|;
    EncodeSize(v);
    AtParts(buf, off, LE(DatumSize(d), 4), LE(n, 2) + (d.name + Encode(v)));
    AtParts(buf, off + 4, LE(n, 2), d.name + Encode(v));
    AtParts(buf, off + 6, d.name, Encode(v));
    FieldReadsBack(DatumSize(d));
    FieldReadsBack(n);
  }

  /** What Datum::Deserialize does once its header passes the checks. */
  lemma DatumOpened(buf: seq<byte>, off: nat, length: nat, total: nat, at: nat, v: Value, used: nat)
    requires |buf| < TWO_32 && off + 6 <= at < |buf| && 6 <= length
    requires FromLE(buf[off..off + 4]) == total && FromLE(buf[off + 4..off + 6]) == at - off - 6
    requires at - off <= total <= length && total < TWO_32
    requires DecodeValue(CreateValue(buf[at]), buf, at, total - (at - off)) == Done(v, used)
    ensures DecodeDatum(buf, off, length) == Done(Datum(buf[off + 6..at], v), total)
  {
    assert (total - 6 - (at - off - 6)) % TWO_32 == total - (at - off);
  }

  /**
   A serialized datum, with anything behind it, is parsed back and reports its own size, and the slice its value is
   parsed from ends exactly where the datum ends.
   */
  lemma DatumRoundTrip(d: Datum, buf: seq<byte>, off: nat, length: nat)
    requires |buf| < TWO_32 && DatumFits(d)
    requires At(buf, off, EncodeDatum(d)) && DatumSize(d) <= length
    ensures off + DatumSize(d) <= |buf|
    ensures DecodeDatum(buf, off, length) == Done(d, DatumSize(d))
    ensures (FromLE(buf[off..off + 4]) - 6 - FromLE(buf[off + 4..off + 6])) % TWO_32 == Size(d.value)
  {
    hide DecodeDatum, DecodeValue, FromLE, Encode;
    DatumLayout(d, buf, off);
    var at, size := off + 6 + |d.name|, Size(d.value);
    var prior := CreateValue(buf[at]);
    assert DecodeValue(prior, buf, at, size) == Done(d.value, size) by {
      FirstByteCreates(d.value, buf, at);
      ValueRoundTrip(prior, d.value, buf, at, size);
    }
    DatumOpened(buf, off, length, DatumSize(d), at, d.value, size);
  }

  lemma ArgsStep(d: Datum, rest: seq<Datum>, buf: seq<byte>, i: nat, next: nat, tail: Parsed<seq<Datum>>)
    requires |buf| < TWO_32 && i < next <= |buf|
    requires DecodeDatum(buf, i, |buf| - i) == Done(d, next - i)
    requires DecodeArgs(buf, next) == Prepended(rest, tail)
    ensures DecodeArgs(buf, i) == Prepended([d] + rest, tail)
  {
    hide DecodeDatum;
    if tail.Done? {
      assert [d] + (rest + tail.value) == [d] + rest + tail.value;
    }
  }

  /** A datum list in front of other bytes is parsed first; the loop then goes on with those bytes. */
  lemma {:induction false} ArgsRoundTrip(args: seq<Datum>, buf: seq<byte>, i: nat)
    requires |buf| < TWO_32 && SoundArgs(args) && ShortArgNames(args)
    requires At(buf, i, EncodeArgs(args))
    ensures i + ArgsSize(args) <= |buf|
    ensures DecodeArgs(buf, i) == Prepended(args, DecodeArgs(buf, i + ArgsSize(args)))
  {
    hide DecodeArgs, DecodeDatum, EncodeDatum, Encode, FromLE;
    EncodeArgsSize(args);
    var end := i + ArgsSize(args);
    if args == [] {
      var r := DecodeArgs(buf, i);
      assert r.Done? ==> [] + r.value == r.value;
    } else {
      var d, rest := args[0], args[1..];
      var next := i + DatumSize(d);
      assert At(buf, i, EncodeDatum(d)) && At(buf, next, EncodeArgs(rest)) by {
        EncodeDatumSize(d);
        AtParts(buf, i, EncodeDatum(d), EncodeArgs(rest));
      }
      assert DecodeArgs(buf, next) == Prepended(rest, DecodeArgs(buf, end)) by {
        ArgsRoundTrip(rest, buf, next);
      }
      DatumRoundTrip(d, buf, i, |buf| - i);
      ArgsStep(d, rest, buf, i, next, DecodeArgs(buf, end));
      assert [d] + rest == args;
    }
  }

  function Prepended(args: seq<Datum>, r: Parsed<seq<Datum>>): Parsed<seq<Datum>> {
    match r
    case Done(more, end) => Done(args + more, end)
    case failed => failed
  }

  /** Where the parts of a serialized request stand. */
  lemma MessageLayout(m: Message, buf: seq<byte>)
    requires MessageFits(m) && At(buf, 0, EncodeMessage(m))
    ensures 10 + |m.name| <= MessageSize(m) <= |buf|
    ensures FromLE(buf[..4]) == MessageSize(m) && FromLE(buf[4..8]) == m.id && FromLE(buf[8..10]) == |m.name|
    ensures buf[10..10 + |m.name|] == m.name
    ensures At(buf, 10 + |m.name|, EncodeArgs(m.args))
  {
    var n := |m.name|;
    EncodeMessageSize(m);
    AtParts(buf, 0, LE(MessageSize(m), 4), LE(m.id, 4) + (LE(n, 2) + (m.name + EncodeArgs(m.args))));
    AtParts(buf, 4, LE(m.id, 4), LE(n, 2) + (m.name + EncodeArgs(m.args)));
    AtParts(buf, 8, LE(n, 2), m.name + EncodeArgs(m.args));
    AtParts(buf, 10, m.name, EncodeArgs(m.args));
    FieldReadsBack(MessageSize(m));
    FieldReadsBack(m.id);
    FieldReadsBack(n);
  }

  /** What Request::Deserialize does once its header passes the checks. */
  lemma MessageOpened(buf: seq<byte>, id: nat, start: nat, args: seq<Datum>, tail: Parsed<seq<Datum>>)
    requires 10 <= start <= |buf| < TWO_32
    requires FromLE(buf[..4]) <= |buf| && FromLE(buf[4..8]) == id && FromLE(buf[8..10]) == start - 10
    requires DecodeArgs(buf, start) == Prepended(args, tail)
    ensures DecodeMessage(buf) == WithArgs(id, buf[10..start], args, tail)
  {
  }

  function WithArgs(id: nat, name: seq<byte>, args: seq<Datum>, tail: Parsed<seq<Datum>>): Parsed<Message> {
    match tail
    case Done(more, end) => Done(Message(id, name, args + more), end)
    case _ => Overrun
  }

  /** A serialized request followed by other bytes: the parser does not stop at the request's own length. */
  lemma MessageWithTail(m: Message, buf: seq<byte>)
    requires MessageFits(m) && |buf| < TWO_32 && At(buf, 0, EncodeMessage(m))
    ensures MessageSize(m) <= |buf|
    ensures DecodeMessage(buf) == WithArgs(m.id, m.name, m.args, DecodeArgs(buf, MessageSize(m)))
  {
    hide DecodeMessage, DecodeArgs, DecodeDatum, FromLE, EncodeArgs;
    MessageLayout(m, buf);
    var start, tail := 10 + |m.name|, DecodeArgs(buf, MessageSize(m));
    assert DecodeArgs(buf, start) == Prepended(m.args, tail) by {
      ArgsRoundTrip(m.args, buf, start);
    }
    MessageOpened(buf, m.id, start, m.args, tail);
  }

  lemma MessageRoundTrip(m: Message)
    requires MessageFits(m)
    ensures |EncodeMessage(m)| == MessageSize(m)
    ensures DecodeMessage(EncodeMessage(m)) == Done(m, MessageSize(m))
  {
    EncodeMessageSize(m);
    var buf := EncodeMessage(m);
    assert buf[0..|buf|] == buf;
    MessageWithTail(m, buf);
    assert m.args + [] == m.args;
  }

  /** No parsed name is longer than a uint16. */
  lemma {:induction false} DecodedArgNamesAreShort(buf: seq<byte>, i: nat)
    requires |buf| < TWO_32 && i <= |buf|
    ensures DecodeArgs(buf, i).Done? ==> ShortArgNames(DecodeArgs(buf, i).value)
    decreases |buf| - i
  {
    hide DecodeValue, FromLE;
    if i < |buf| {
      var r := DecodeDatum(buf, i, |buf| - i);
      if r.Done? && r.used > 0 {
        FieldBounds(buf[i + 4..i + 6]);
        DecodedArgNamesAreShort(buf, i + r.used);
      }
    }
  }

  /** For any id, name and argument list, duplicates included, the round trip holds exactly when all names are short. */
  lemma MessageRoundTripExact(m: Message)
    requires Sendable(m)
    ensures |EncodeMessage(m)| == MessageSize(m)
    ensures DecodeMessage(EncodeMessage(m)) == Done(m, MessageSize(m)) <==> ShortNames(m)
  {
    var buf := EncodeMessage(m);
    EncodeMessageSize(m);
    if ShortNames(m) {
      MessageRoundTrip(m);
    } else if DecodeMessage(buf).Done? {
      var n := FromLE(buf[8..10]);
      FieldBounds(buf[8..10]);
      DecodedArgNamesAreShort(buf, 10 + n);
    }
  }

  /** Distinct requests serialize differently, and none is a proper prefix of another. */
  lemma MessagesPrefixFree(m: Message, k: Message)
    requires MessageFits(m) && MessageFits(k)
    ensures EncodeMessage(m) <= EncodeMessage(k) <==> m == k
  {
    if EncodeMessage(m) <= EncodeMessage(k) {
      EncodeMessageSize(m);
      EncodeMessageSize(k);
      assert EncodeMessage(m)[..4] == EncodeMessage(k)[..4];
      FieldReadsBack(MessageSize(m));
      FieldReadsBack(MessageSize(k));
      assert EncodeMessage(m) == EncodeMessage(k);
      MessageRoundTrip(m);
      MessageRoundTrip(k);
    }
  }

  // Arbitrary bytes

  /**
   When a datum inside the buffer is rejected by its own header, when reading its value leaves the buffer, and when the
   value decides.
   */
  lemma DatumRejected(buf: seq<byte>, off: nat, length: nat)
    requires off + length <= |buf| < TWO_32
    ensures length < 6 ==> DecodeDatum(buf, off, length).Rejected?
    ensures length >= 6 ==>
              var total, n := FromLE(buf[off..off + 4]), FromLE(buf[off + 4..off + 6]);
              && (total > length || n > total ==> DecodeDatum(buf, off, length).Rejected?)
              && (total <= length && n <= total && off + 6 + n >= |buf| ==> DecodeDatum(buf, off, length).Overrun?)
              && (total <= length && n <= total && off + 6 + n < |buf| ==>
                    var v := DecodeValue(CreateValue(buf[off + 6 + n]), buf, off + 6 + n,
                                         (total - 6 - n) % 0x1_0000_0000);
                    && (DecodeDatum(buf, off, length).Rejected? <==> v.Rejected?)
                    && (v.Done? ==> DecodeDatum(buf, off, length) ==
                                    Done(Datum(buf[off + 6..off + 6 + n], v.value), total)))
  {
    hide DecodeValue, FromLE;
  }

  /**
   When a request is rejected: it is shorter than its fixed part, or its size or its name exceeds the buffer. A name
   that fits the buffer but not behind the fixed part is read past the end.
   */
  lemma MessageRejected(buf: seq<byte>)
    requires |buf| < TWO_32
    ensures DecodeMessage(buf).Rejected? <==>
            || |buf| < 10
            || FromLE(buf[..4]) > |buf|
            || FromLE(buf[8..10]) > |buf|
    ensures |buf| >= 10 && FromLE(buf[..4]) <= |buf| && |buf| - 10 < FromLE(buf[8..10]) <= |buf| ==>
              DecodeMessage(buf).Overrun?
    ensures DecodeMessage(buf).Done? ==>
              var n := FromLE(buf[8..10]);
              && 10 + n <= |buf|
              && DecodeMessage(buf).value.id == FromLE(buf[4..8]) && DecodeMessage(buf).value.name == buf[10..10 + n]
  {
    hide DecodeArgs, FromLE;
  }

  /** Where the accepted datums start, and where the loop stopped. */
  function ArgCuts(buf: seq<byte>, i: nat): (cuts: seq<nat>)
    requires |buf| < TWO_32 && i <= |buf| && DecodeArgs(buf, i).Done?
    ensures |cuts| == |DecodeArgs(buf, i).value| + 1 && cuts[0] == i
    decreases |buf| - i
  {
    if i == |buf| then [i]
    else
      match DecodeDatum(buf, i, |buf| - i)
      case Rejected => [i]
      case Done(d, n) => if n == 0 then [i] else [i] + ArgCuts(buf, i + n)
  }

  ghost predicate DatumCutAt(args: seq<Datum>, buf: seq<byte>, cuts: seq<nat>, k: nat)
    requires |buf| < TWO_32 && k < |args| && |cuts| == |args| + 1
  {
    && cuts[k] < cuts[k + 1] <= |buf|
    && DecodeDatum(buf, cuts[k], |buf| - cuts[k]) == Done(args[k], cuts[k + 1] - cuts[k])
  }

  /** Why the loop may stop at i: the buffer ends there, or the datum there returns 0. */
  ghost predicate StopsAt(buf: seq<byte>, i: nat)
    requires |buf| < TWO_32 && i <= |buf|
  {
    i == |buf| || var stop := DecodeDatum(buf, i, |buf| - i); stop.Rejected? || (stop.Done? && stop.used == 0)
  }

  ghost predicate Tiled(args: seq<Datum>, buf: seq<byte>, cuts: seq<nat>, end: nat)
    requires |buf| < TWO_32
  {
    && |cuts| == |args| + 1 && cuts[|args|] == end <= |buf|
    && (forall k | 0 <= k < |args| :: DatumCutAt(args, buf, cuts, k))
    && StopsAt(buf, end)
  }

  lemma TileStep(d: Datum, args: seq<Datum>, buf: seq<byte>, i: nat, cuts: seq<nat>, end: nat)
    requires |buf| < TWO_32 && i <= |buf| && Tiled(args, buf, cuts, end) && i < cuts[0] <= |buf|
    requires DecodeDatum(buf, i, |buf| - i) == Done(d, cuts[0] - i)
    ensures Tiled([d] + args, buf, [i] + cuts, end)
  {
    hide DecodeDatum;
    forall k | 0 <= k < |args| + 1 ensures DatumCutAt([d] + args, buf, [i] + cuts, k) {
      if k > 0 {
        assert DatumCutAt(args, buf, cuts, k - 1);
      }
    }
  }

  /**
   On arbitrary bytes the accepted datums tile the range from i to the returned offset, each one parsed where the one
   before it ended, and the loop stops only at the end of the buffer or at a datum that returns 0.
   */
  lemma {:induction false} ArgsTile(buf: seq<byte>, i: nat)
    requires |buf| < TWO_32 && i <= |buf| && DecodeArgs(buf, i).Done?
    ensures Tiled(DecodeArgs(buf, i).value, buf, ArgCuts(buf, i), DecodeArgs(buf, i).used)
    decreases |buf| - i
  {
    hide DecodeDatum;
    if i < |buf| {
      var first := DecodeDatum(buf, i, |buf| - i);
      if first.Done? && first.used > 0 {
        var next := i + first.used;
        ArgsTile(buf, next);
        TileStep(first.value, DecodeArgs(buf, next).value, buf, i, ArgCuts(buf, next), DecodeArgs(buf, next).used);
      }
    }
  }

  /** Whenever header and name fit and no read leaves the buffer, the datums tile what follows the name. */
  lemma MessageTiles(buf: seq<byte>)
    requires |buf| < TWO_32 && DecodeMessage(buf).Done?
    ensures var start := 10 + |DecodeMessage(buf).value.name|;
            && start <= |buf| && DecodeArgs(buf, start).Done?
            && ArgCuts(buf, start)[0] == start
            && Tiled(DecodeMessage(buf).value.args, buf, ArgCuts(buf, start), DecodeMessage(buf).used)
  {
    ArgsTile(buf, 10 + |DecodeMessage(buf).value.name|);
  }
}
