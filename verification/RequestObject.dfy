/** The Request class. Its datums are values here: a datum is never changed in place except through Set. */
module RequestObject {
  import opened Bytes
  import opened Wrappers
  import opened Values
  import opened ValueDecoding
  import opened ValueHeap
  import opened Requests
  import opened Arguments

  class Request {
    var id: nat
    var name: seq<byte>
    var arguments: seq<Datum>

    function Contents(): Message
      reads this
    {
      Message(id, name, arguments)
    }

    constructor (name: seq<byte>)
      ensures Contents() == Message(0, name, [])
    {
      this.id, this.name, this.arguments := 0, name, [];
    }

    /** std::find_if over the arguments. */
    method IndexOf(name: seq<byte>) returns (i: nat)
      ensures i == Find(arguments, name)
    {
      i := 0;
      while i < |arguments| && arguments[i].name != name
        invariant i <= |arguments| && forall j | 0 <= j < i :: arguments[j].name != name
      {
        i := i + 1;
      }
      FindUnique(arguments, name, i);
    }

    method Get(name: seq<byte>) returns (value: Option<Value>)
      ensures value == Lookup(arguments, name)
    {
      var i := IndexOf(name);
      value := if i < |arguments| then Some(arguments[i].value) else None;
    }

    method Set(name: seq<byte>, value: Option<Value>, toCopy: bool)
      modifies this
      ensures Contents() == old(Contents()).(args := SetArg(old(arguments), name, Stored(value, toCopy)))
      ensures value.None? ==> Lookup(arguments, name) == Some(Undefined([]))
      ensures value.Some? ==> Lookup(arguments, name) == Some(if toCopy then Copied(value.value) else value.value)
    {
      SetArgUpdates(arguments, name, Stored(value, toCopy));
      var present := Get(name);
      if present.Some? {
        var i := IndexOf(name);
        arguments := arguments[i := arguments[i].(value := Stored(value, toCopy))];
      } else {
        arguments := arguments + [Datum(name, Stored(value, toCopy))];
      }
    }

    /** CopyFrom sets the datums of the original one by one; it does not remove arguments that are already here. */
    method CopyFrom(original: Request)
      requires original != this
      modifies this
      ensures Contents() == Message(original.id, original.name, SetAll(old(arguments), original.arguments))
    {
      name, id := original.name, original.id;
      for k := 0 to |original.arguments|
        invariant name == original.name && id == original.id
        invariant original.arguments == old(original.arguments)
        invariant SetAll(old(arguments), original.arguments) == SetAll(arguments, original.arguments[k..])
      {
        var d := original.arguments[k];
        Set(d.name, Some(d.value), true);
        assert original.arguments[k..][1..] == original.arguments[k + 1..];
      }
      assert original.arguments[|original.arguments|..] == [];
    }

    /** GetSize: a uint32 sum. */
    method GetSize() returns (sum: nat)
      ensures sum == MessageSize(Contents()) % TWO_32
    {
      sum := (10 + |name|) % TWO_32;
      for k := 0 to |arguments|
        invariant sum == (10 + |name| + ArgsSize(arguments[..k])) % TWO_32
      {
        ArgsSizeAppend(arguments[..k], arguments[k]);
        assert arguments[..k + 1] == arguments[..k] + [arguments[k]];
        AddModulo(10 + |name| + ArgsSize(arguments[..k]), DatumSize(arguments[k]));
        sum := (sum + DatumSize(arguments[k]) % TWO_32) % TWO_32;
      }
      assert arguments[..|arguments|] == arguments;
    }

    /** Serialize: a new buffer of exactly GetSize bytes, filled at a running offset. */
    method Serialize() returns (result: array<byte>)
      requires Sendable(Contents())
      ensures fresh(result) && result[..] == EncodeMessage(Contents())
    {
      EncodeMessageSize(Contents());
      var size := GetSize();
      result := new byte[size];
      var offset: nat := WriteHeader(result, size);
      ghost var rest := EncodeArgs(arguments);
      for k := 0 to |arguments|
        invariant SoundArgs(arguments[k..]) && rest == EncodeArgs(arguments[k..])
        invariant offset <= result.Length && offset + |rest| == result.Length
        invariant result[..offset] + rest == EncodeMessage(Contents())
      {
        assert arguments[k..] == [arguments[k]] + arguments[k + 1..];
        offset, rest := WriteDatum(result, offset, arguments[k], arguments[k + 1..], rest);
      }
      assert result[..offset] == result[..];
    }

    /** One datum is written at the running offset; what is still to be written gets shorter by that much. */
    method WriteDatum(result: array<byte>, offset: nat, d: Datum, ghost later: seq<Datum>, ghost rest: seq<byte>)
      returns (next: nat, ghost rest': seq<byte>)
      requires SoundArgs([d] + later) && rest == EncodeArgs([d] + later) && offset + |rest| == result.Length
      modifies result
      ensures SoundArgs(later) && rest' == EncodeArgs(later)
      ensures next <= result.Length && next + |rest'| == result.Length
      ensures result[..next] + rest' == old(result[..offset]) + rest
    {
      assert ([d] + later)[1..] == later;
      EncodeDatumSize(d);
      rest' := EncodeArgs(later);
      CopyInto(result, offset, EncodeDatum(d));
      next := offset + DatumSize(d);
      assert result[..offset] + (EncodeDatum(d) + rest') == result[..offset] + EncodeDatum(d) + rest';
    }

    method WriteHeader(result: array<byte>, size: nat) returns (offset: nat)
      requires SoundArgs(arguments) && size == MessageSize(Contents()) == result.Length
      modifies result
      ensures offset == 10 + |name| <= result.Length
      ensures result[..offset] + EncodeArgs(arguments) == EncodeMessage(Contents())
    {
      hide LE, EncodeArgs, ArgsSize;
      CopyInto(result, 0, LE(size, 4));
      CopyInto(result, 4, LE(id, 4));
      CopyInto(result, 8, LE(|name|, 2));
      CopyInto(result, 10, name);
      offset := 10 + |name|;
      HeaderJoins(LE(size, 4), LE(id, 4), LE(|name|, 2), name, EncodeArgs(arguments));
    }

    /** Deserialize on a buffer of exactly data_size bytes. A request that is rejected leaves the object as it was. */
    method Deserialize(data: seq<byte>) returns (used: nat, overrun: bool)
      requires |data| < TWO_32
      modifies this
      ensures match DecodeMessage(data)
              case Done(m, n) => !overrun && used == n && Contents() == m
              case Rejected => !overrun && used == 0 && unchanged(this)
              case Overrun => overrun
    {
      used, overrun := 0, false;
      if |data| < 10 { return; }
      var total, n := FromLE(data[..4]), FromLE(data[8..10]);
      if total > |data| || n > |data| { return; }
      if 10 + n > |data| { overrun := true; return; }
      arguments := [];
      id := FromLE(data[4..8]);
      name := data[10..10 + n];
      used, overrun := ReadDatums(data, 10 + n);
    }

    method ReadDatums(data: seq<byte>, start: nat) returns (i: nat, overrun: bool)
      requires |data| < TWO_32 && start <= |data| && arguments == []
      modifies this`arguments
      ensures overrun == DecodeArgs(data, start).Overrun?
      ensures !overrun ==> DecodeArgs(data, start) == Done(arguments, i)
    {
      i, overrun := start, false;
      var more := true;
      NothingBefore(DecodeArgs(data, start));
      while more
        invariant start <= i <= |data| && !overrun
        invariant DecodeArgs(data, start) ==
                  if more then Prepended(arguments, DecodeArgs(data, i)) else Done(arguments, i)
        decreases |data| - i, more
      {
        i, more, overrun := ReadDatum(data, i);
        if overrun { return; }
      }
    }

    /** One round of that loop; `more` says whether it goes on. */
    method ReadDatum(data: seq<byte>, i: nat) returns (next: nat, more: bool, overrun: bool)
      requires |data| < TWO_32 && i <= |data|
      modifies this`arguments
      ensures var r := Prepended(old(arguments), DecodeArgs(data, i));
              && (overrun ==> r.Overrun?)
              && (!overrun && !more ==> next == i && r == Done(arguments, next))
              && (!overrun && more ==> i < next <= |data| && r == Prepended(arguments, DecodeArgs(data, next)))
    {
      hide DecodeArgs, DecodeDatum;
      ArgsRound(arguments, data, i);
      next, more, overrun := i, false, false;
      if i < |data| {
        match DecodeDatum(data, i, |data| - i)
        case Overrun => overrun := true;
        case Rejected =>
        case Done(d, n) =>
          if n > 0 {
            next, more := i + n, true;
            arguments := arguments + [d];
          }
      }
    }
  }

  lemma NothingBefore(r: Parsed<seq<Datum>>)
    ensures Prepended([], r) == r
  {
    assert r.Done? ==> [] + r.value == r.value;
  }

  lemma HeaderJoins(a: seq<byte>, b: seq<byte>, c: seq<byte>, d: seq<byte>, e: seq<byte>)
    ensures a + b + c + d + e == a + (b + (c + (d + e)))
  {
  }

  /** The datum loop stops, or does one round and carries on. */
  lemma ArgsRound(args: seq<Datum>, data: seq<byte>, i: nat)
    requires |data| < TWO_32 && i <= |data|
    ensures var r := Prepended(args, DecodeArgs(data, i));
            if i == |data| then r == Done(args, i)
            else match DecodeDatum(data, i, |data| - i)
                 case Overrun => r.Overrun?
                 case Rejected => r == Done(args, i)
                 case Done(d, n) =>
                   if n == 0 then r == Done(args, i)
                   else r == Prepended(args + [d], DecodeArgs(data, i + n))
  {
    hide DecodeDatum;
    assert args + [] == args;
    if i < |data| {
      var first := DecodeDatum(data, i, |data| - i);
      if first.Done? && first.used > 0 {
        var tail := DecodeArgs(data, i + first.used);
        assert tail.Done? ==> args + ([first.value] + tail.value) == args + [first.value] + tail.value;
      }
    }
  }
}
