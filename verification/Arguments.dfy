/** The arguments of a request as an insertion-ordered map, and what copying a request does to them. */
module Arguments {
  import opened Bytes
  import opened Wrappers
  import opened Values
  import opened Requests

  /** Index of the first argument with this name, or the number of arguments. */
  function Find(args: seq<Datum>, name: seq<byte>): (i: nat)
    ensures i <= |args|
    ensures i < |args| ==> args[i].name == name
    ensures forall j | 0 <= j < i :: args[j].name != name
  {
    if args == [] || args[0].name == name then 0 else Find(args[1..], name) + 1
  }

  /** Request::Get. */
  function Lookup(args: seq<Datum>, name: seq<byte>): Option<Value> {
    var i := Find(args, name);
    if i < |args| then Some(args[i].value) else None
  }

  /** Request::Set once the value to store is known. */
  function SetArg(args: seq<Datum>, name: seq<byte>, v: Value): seq<Datum> {
    var i := Find(args, name);
    if i < |args| then args[i := args[i].(value := v)] else args + [Datum(name, v)]
  }

  /** What Datum::SetValue stores: a null pointer becomes an undefined value; otherwise the value or its copy. */
  function Stored(value: Option<Value>, toCopy: bool): Value {
    match value
    case None => Undefined([])
    case Some(v) => if toCopy then Copied(v) else v
  }

  predicate Distinct(args: seq<Datum>) {
    forall i, j | 0 <= i < j < |args| :: args[i].name != args[j].name
  }

  lemma FindUnique(args: seq<Datum>, name: seq<byte>, i: nat)
    requires i <= |args| && (i < |args| ==> args[i].name == name) && forall j | 0 <= j < i :: args[j].name != name
    ensures Find(args, name) == i
  {
  }

  /**
   Set is an update of an insertion-ordered map: the name now has the new value, every other name has what it had,
   names stay pairwise distinct, and every argument but the first of that name is as it was, in its place, a new name
   going last.
   */
  lemma SetArgUpdates(args: seq<Datum>, name: seq<byte>, v: Value)
    ensures Lookup(SetArg(args, name, v), name) == Some(v)
    ensures forall other | other != name :: Lookup(SetArg(args, name, v), other) == Lookup(args, other)
    ensures Distinct(args) ==> Distinct(SetArg(args, name, v))
    ensures |SetArg(args, name, v)| == if Lookup(args, name).Some? then |args| else |args| + 1
    ensures forall i | 0 <= i < |args| :: SetArg(args, name, v)[i].name == args[i].name
    ensures forall i | 0 <= i < |args| && i != Find(args, name) :: SetArg(args, name, v)[i] == args[i]
    ensures Lookup(args, name).None? ==> SetArg(args, name, v)[|args|] == Datum(name, v)
  {
    var r, i := SetArg(args, name, v), Find(args, name);
    FindUnique(r, name, i);
    forall other | other != name ensures Lookup(r, other) == Lookup(args, other) {
      var j := Find(args, other);
      if j < |args| {
        FindUnique(r, other, j);
      } else {
        FindUnique(r, other, |r|);
      }
    }
  }

  /** Setting copies of all the datums of src, in order: the loop of Request::CopyFrom. */
  function SetAll(args: seq<Datum>, src: seq<Datum>): seq<Datum>
    decreases |src|
  {
    if src == [] then args else SetAll(SetArg(args, src[0].name, Copied(src[0].value)), src[1..])
  }

  /** Request::CopyFrom into a new request. */
  function CopyMessage(m: Message): Message {
    Message(m.id, m.name, SetAll([], m.args))
  }

  /** Index of the last datum with this name, or -1. */
  function FindLast(args: seq<Datum>, name: seq<byte>): (i: int)
    ensures -1 <= i < |args|
    ensures i >= 0 ==> args[i].name == name
    ensures forall j | i < j < |args| :: args[j].name != name
  {
    if args == [] || args[|args| - 1].name == name then |args| - 1 else FindLast(args[..|args| - 1], name)
  }

  /** In the copy every name has a copy of the value its last datum had; names not in src keep what they had. */
  lemma {:induction false} SetAllLookup(args: seq<Datum>, src: seq<Datum>, name: seq<byte>)
    ensures Lookup(SetAll(args, src), name) ==
            if FindLast(src, name) < 0 then Lookup(args, name) else Some(Copied(src[FindLast(src, name)].value))
    decreases |src|
  {
    if src != [] {
      SetArgUpdates(args, src[0].name, Copied(src[0].value));
      SetAllLookup(SetArg(args, src[0].name, Copied(src[0].value)), src[1..], name);
      var i, k := FindLast(src, name), FindLast(src[1..], name);
      assert k >= 0 ==> src[1..][k] == src[k + 1] && k + 1 <= i;
      assert i >= 1 ==> src[1..][i - 1] == src[i] && i - 1 <= k;
    }
  }

  predicate SameNames(args: seq<Datum>, other: seq<Datum>) {
    |args| == |other| && forall i | 0 <= i < |args| :: args[i].name == other[i].name
  }

  lemma FindByNames(args: seq<Datum>, other: seq<Datum>, name: seq<byte>)
    requires SameNames(args, other)
    ensures Find(args, name) == Find(other, name)
  {
    FindUnique(other, name, Find(args, name));
  }

  /** An argument with a name that is already there changes no order. */
  lemma FindInserted(args: seq<Datum>, d: Datum, later: seq<Datum>, name: seq<byte>)
    requires Find(args, d.name) < |args|
    ensures var i := Find(args + later, name);
            Find(args + [d] + later, name) == if i < |args| then i else i + 1
  {
    var i, all := Find(args + later, name), args + [d] + later;
    var k := if i < |args| then i else i + 1;
    assert forall j | 0 <= j < |args| :: all[j] == (args + later)[j];
    assert forall j | |args| < j < |all| :: all[j] == (args + later)[j - 1];
    assert (args + later)[Find(args, d.name)].name == d.name;
    FindUnique(all, name, k);
  }

  /** The names of `args` are all different and stand in the order in which `src` first has them. */
  predicate InOrderOf(args: seq<Datum>, src: seq<Datum>) {
    forall i, j | 0 <= i < j < |args| :: Find(src, args[i].name) < Find(src, args[j].name)
  }

  lemma DistinctInOrder(args: seq<Datum>)
    requires Distinct(args)
    ensures InOrderOf(args, args)
  {
    forall i | 0 <= i < |args| ensures Find(args, args[i].name) == i {
      FindUnique(args, args[i].name, i);
    }
  }

  lemma {:induction false} SetAllOrder(args: seq<Datum>, src: seq<Datum>)
    requires Distinct(args)
    ensures InOrderOf(SetAll(args, src), args + src)
    decreases |src|
  {
    hide Find, InOrderOf, SetArg, Distinct;
    if src == [] {
      assert args + src == args;
      DistinctInOrder(args);
    } else {
      var d, later := src[0], src[1..];
      var next := SetArg(args, d.name, Copied(d.value));
      SetArgUpdates(args, d.name, Copied(d.value));
      SetAllOrder(next, later);
      assert args + src == args + [d] + later;
      OrderBefore(args, d, Copied(d.value), later, SetAll(next, later));
    }
  }

  lemma OrderBefore(args: seq<Datum>, d: Datum, v: Value, later: seq<Datum>, r: seq<Datum>)
    requires InOrderOf(r, SetArg(args, d.name, v) + later)
    ensures InOrderOf(r, args + [d] + later)
  {
    hide Find, SetArg;
    var next := SetArg(args, d.name, v) + later;
    forall i, j | 0 <= i < j < |r|
      ensures Find(args + [d] + later, r[i].name) < Find(args + [d] + later, r[j].name)
    {
      assert Find(next, r[i].name) < Find(next, r[j].name);
      FindAfterSet(args, d, v, later, r[i].name);
      FindAfterSet(args, d, v, later, r[j].name);
    }
  }

  lemma FindAfterSet(args: seq<Datum>, d: Datum, v: Value, later: seq<Datum>, name: seq<byte>)
    ensures var i := Find(SetArg(args, d.name, v) + later, name);
            Find(args + [d] + later, name) == if Find(args, d.name) < |args| && i >= |args| then i + 1 else i
  {
    var next := SetArg(args, d.name, v);
    if Find(args, d.name) < |args| {
      FindByNames(next + later, args + later, name);
      FindInserted(args, d, later, name);
    } else {
      FindByNames(next + later, args + [d] + later, name);
    }
  }

  /** Copying arguments into a new request: each name once, in order of first appearance, with its last value copied. */
  ghost predicate CopyOf(args: seq<Datum>, src: seq<Datum>) {
    && InOrderOf(args, src)
    && forall name :: Lookup(args, name) ==
                      if FindLast(src, name) < 0 then None else Some(Copied(src[FindLast(src, name)].value))
  }

  lemma CopyMessageIsCopy(m: Message)
    ensures CopyMessage(m).id == m.id && CopyMessage(m).name == m.name && CopyOf(CopyMessage(m).args, m.args)
  {
    SetAllOrder([], m.args);
    assert [] + m.args == m.args;
    forall name {
      SetAllLookup([], m.args, name);
    }
  }

  predicate NoRawArgs(args: seq<Datum>) {
    forall i | 0 <= i < |args| :: NoRawBytes(args[i].value)
  }

  lemma {:induction false} SetAllKeeps(args: seq<Datum>, src: seq<Datum>)
    requires Distinct(args) && NoRawArgs(args)
    ensures Distinct(SetAll(args, src)) && NoRawArgs(SetAll(args, src))
    decreases |src|
  {
    if src != [] {
      var v := Copied(src[0].value);
      CopyFits(src[0].value);
      SetArgUpdates(args, src[0].name, v);
      SetAllKeeps(SetArg(args, src[0].name, v), src[1..]);
    }
  }

  /** With distinct names, copying appends copies of the datums one by one. */
  lemma {:induction false} SetAllDistinct(args: seq<Datum>, src: seq<Datum>)
    requires Distinct(args + src) && NoRawArgs(src)
    ensures SetAll(args, src) == args + src
    decreases |src|
  {
    if src == [] {
      assert args + src == args;
    } else {
      var d := src[0];
      CopyIsExact(d.value);
      assert (args + src)[|args|] == d;
      assert forall j | 0 <= j < |args| :: (args + src)[j] == args[j];
      FindUnique(args, d.name, |args|);
      assert args + [d] + src[1..] == args + src;
      SetAllDistinct(args + [d], src[1..]);
    }
  }

  /** A copied request equals the original exactly when its names are distinct and no undefined value holds bytes. */
  lemma CopyMessageExact(m: Message)
    ensures CopyMessage(m) == m <==> Distinct(m.args) && NoRawArgs(m.args)
  {
    SetAllKeeps([], m.args);
    if Distinct(m.args) && NoRawArgs(m.args) {
      assert [] + m.args == m.args;
      SetAllDistinct([], m.args);
    }
  }

  lemma {:induction false} ArgsSizeUpdate(args: seq<Datum>, i: nat, d: Datum)
    requires i < |args|
    ensures ArgsSize(args[i := d]) == ArgsSize(args) - DatumSize(args[i]) + DatumSize(d)
  {
    if i > 0 {
      assert args[i := d][1..] == args[1..][i - 1 := d];
      ArgsSizeUpdate(args[1..], i - 1, d);
    } else {
      assert args[i := d][1..] == args[1..];
    }
  }

  lemma {:induction false} ArgsSizeAppend(args: seq<Datum>, d: Datum)
    ensures ArgsSize(args + [d]) == ArgsSize(args) + DatumSize(d)
  {
    if args == [] {
      assert args + [d] == [d];
    } else {
      ArgsSizeAppend(args[1..], d);
      assert (args + [d])[1..] == args[1..] + [d];
    }
  }

  lemma SetArgSize(args: seq<Datum>, name: seq<byte>, v: Value)
    ensures ArgsSize(SetArg(args, name, v)) <= ArgsSize(args) + DatumSize(Datum(name, v))
    ensures SoundArgs(args) && Sound(v) ==> SoundArgs(SetArg(args, name, v))
    ensures ShortArgNames(args) && |name| < TWO_16 ==> ShortArgNames(SetArg(args, name, v))
  {
    var i := Find(args, name);
    if i < |args| {
      ArgsSizeUpdate(args, i, args[i].(value := v));
    } else {
      ArgsSizeAppend(args, Datum(name, v));
    }
  }

  lemma {:induction false} SetAllSize(args: seq<Datum>, src: seq<Datum>)
    ensures ArgsSize(SetAll(args, src)) <= ArgsSize(args) + ArgsSize(src)
    ensures SoundArgs(args) && SoundArgs(src) ==> SoundArgs(SetAll(args, src))
    ensures ShortArgNames(args) && ShortArgNames(src) ==> ShortArgNames(SetAll(args, src))
    decreases |src|
  {
    if src != [] {
      var v := Copied(src[0].value);
      CopyFits(src[0].value);
      SetArgSize(args, src[0].name, v);
      SetAllSize(SetArg(args, src[0].name, v), src[1..]);
    }
  }

  lemma CopyMessageSendable(m: Message)
    requires Sendable(m)
    ensures Sendable(CopyMessage(m)) && MessageSize(CopyMessage(m)) <= MessageSize(m)
  {
    SetAllSize([], m.args);
  }

  /** A copy of a request that fits the wire format fits it too. */
  lemma CopyMessageFits(m: Message)
    requires MessageFits(m)
    ensures MessageFits(CopyMessage(m)) && MessageSize(CopyMessage(m)) <= MessageSize(m)
  {
    SetAllSize([], m.args);
  }

  /** A copy serializes to the same bytes exactly when the names are distinct and no undefined value holds bytes. */
  lemma CopySerializesAlike(m: Message)
    requires MessageFits(m)
    ensures MessageFits(CopyMessage(m))
    ensures EncodeMessage(CopyMessage(m)) == EncodeMessage(m) <==> Distinct(m.args) && NoRawArgs(m.args)
  {
    CopyMessageFits(m);
    CopyMessageExact(m);
    MessagesPrefixFree(CopyMessage(m), m);
  }
}
