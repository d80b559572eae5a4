/** Strings printed over several lines: the newline replacement of ValueStr::ToStringInternal. */
module Text {
  import opened Bytes

  const NEWLINE: byte := 10
  const SPACE: byte := 32

  /** The indent string: a newline followed by spaces. */
  function IndentString(indent: nat): (s: seq<byte>)
    ensures |s| == indent + 1 && s[0] == 0x0A && forall i | 0 < i <= indent :: s[i] == 0x20
  {
    [NEWLINE] + seq(indent, _ => SPACE)
  }

  /** Every newline of the text replaced once. */
  function Indented(text: seq<byte>, insert: seq<byte>): seq<byte> {
    if text == [] then [] else (if text[0] == NEWLINE then insert else [text[0]]) + Indented(text[1..], insert)
  }

  /** string::find for a newline from an offset on: its index, or the length of the text. */
  function FindNewline(text: seq<byte>, from: nat): (i: nat)
    requires from <= |text|
    ensures from <= i <= |text|
    ensures i < |text| ==> text[i] == NEWLINE
    ensures forall j | from <= j < i :: text[j] != NEWLINE
    decreases |text| - from
  {
    if from == |text| || text[from] == NEWLINE then from else FindNewline(text, from + 1)
  }

  lemma {:induction false} IndentedConcat(a: seq<byte>, b: seq<byte>, insert: seq<byte>)
    ensures Indented(a + b, insert) == Indented(a, insert) + Indented(b, insert)
  {
    if a == [] {
      assert a + b == b;
    } else {
      IndentedConcat(a[1..], b, insert);
      var first := if a[0] == NEWLINE then insert else [a[0]];
      Regroup(first, Indented(a[1..], insert), Indented(b, insert));
      assert Indented(a + b, insert) == first + Indented(a[1..] + b, insert) by {
        assert (a + b)[0] == a[0] && (a + b)[1..] == a[1..] + b;
      }
    }
  }

  lemma Regroup(a: seq<byte>, b: seq<byte>, c: seq<byte>)
    ensures a + (b + c) == a + b + c
  {
  }

  lemma {:induction false} IndentedPlain(a: seq<byte>, insert: seq<byte>)
    requires NEWLINE !in a
    ensures Indented(a, insert) == a
  {
    if a != [] {
      IndentedPlain(a[1..], insert);
    }
  }

  /**
   The find-and-replace loop. The index jumps over each inserted string, which itself begins with a newline, so the part
   of the original text still to be searched shrinks in every round.
   */
  method ReplaceNewlines(text: seq<byte>, indent: nat) returns (result: seq<byte>)
    ensures result == Indented(text, IndentString(indent))
  {
    var insert := IndentString(indent);
    result := text;
    var index, more := 0, true;
    ghost var before: seq<byte>, rest := [], text;
    while more
      invariant index == |before| && result == before + rest
      invariant before + (if more then Indented(rest, insert) else rest) == Indented(text, insert)
      decreases |rest|, more
    {
      var at := FindNewline(result, index);
      if at == |result| {
        LastRound(before, rest, insert);
        more := false;
      } else {
        before, rest := ReplaceStep(before, rest, at, insert);
        result := result[..at] + insert + result[at + 1..];
        index := at + |insert|;
      }
    }
  }

  /** One round: the part in front of the index grows by the plain text and the inserted string. */
  lemma ReplaceStep(before: seq<byte>, rest: seq<byte>, at: nat, insert: seq<byte>)
    returns (before': seq<byte>, rest': seq<byte>)
    requires |before| <= at < |before + rest| && (before + rest)[at] == NEWLINE
    requires forall j | |before| <= j < at :: (before + rest)[j] != NEWLINE
    ensures |before'| == at + |insert| && |rest'| < |rest|
    ensures (before + rest)[..at] + insert + (before + rest)[at + 1..] == before' + rest'
    ensures before' + Indented(rest', insert) == before + Indented(rest, insert)
  {
    hide Indented;
    var k := at - |before|;
    PlainPart(before, rest, at);
    ReplaceRound(before, rest, k, insert);
    before', rest' := before + rest[..k] + insert, rest[k + 1..];
  }

  /** When no newline is left, nothing is left to replace. */
  lemma LastRound(before: seq<byte>, rest: seq<byte>, insert: seq<byte>)
    requires forall j | |before| <= j < |before + rest| :: (before + rest)[j] != NEWLINE
    ensures Indented(rest, insert) == rest
  {
    PlainPart(before, rest, |before + rest|);
    assert rest[..|rest|] == rest;
    IndentedPlain(rest, insert);
  }

  /** The text up to the newline found, and behind it. */
  lemma PlainPart(before: seq<byte>, rest: seq<byte>, at: nat)
    requires |before| <= at <= |before + rest|
    requires forall j | |before| <= j < at :: (before + rest)[j] != NEWLINE
    ensures NEWLINE !in rest[..at - |before|] && (before + rest)[..at] == before + rest[..at - |before|]
    ensures at < |before + rest| ==> (before + rest)[at] == rest[at - |before|]
                                     && (before + rest)[at + 1..] == rest[at - |before| + 1..]
  {
    forall i | 0 <= i < at - |before| ensures rest[i] != NEWLINE {
      assert (before + rest)[|before| + i] == rest[i];
    }
  }

  lemma ReplaceRound(before: seq<byte>, rest: seq<byte>, k: nat, insert: seq<byte>)
    requires k <= |rest| && NEWLINE !in rest[..k] && (k < |rest| ==> rest[k] == NEWLINE)
    ensures k == |rest| ==> before + Indented(rest, insert) == before + rest
    ensures k < |rest| ==>
              before + Indented(rest, insert) == before + rest[..k] + insert + Indented(rest[k + 1..], insert)
  {
    var plain, tail := rest[..k], rest[k..];
    IndentedConcat(plain, tail, insert);
    IndentedPlain(plain, insert);
    assert rest == plain + tail;
    if k < |rest| {
      var later := Indented(rest[k + 1..], insert);
      assert Indented(tail, insert) == insert + later by {
        assert tail[1..] == rest[k + 1..];
      }
      Regroup(plain, insert, later);
      assert before + (plain + insert + later) == before + plain + insert + later;
    } else {
      assert plain == rest && tail == [] && rest + [] == rest;
    }
  }

  /** Taking away `indent` bytes behind every newline. */
  function Unindented(text: seq<byte>, indent: nat): seq<byte>
    decreases |text|
  {
    if text == [] then []
    else if text[0] == NEWLINE && indent < |text| then [NEWLINE] + Unindented(text[indent + 1..], indent)
    else [text[0]] + Unindented(text[1..], indent)
  }

  /** Nothing but the newlines was touched: removing the indent gives the text back. */
  lemma {:induction false} UnindentIndented(text: seq<byte>, indent: nat)
    ensures Unindented(Indented(text, IndentString(indent)), indent) == text
  {
    var insert := IndentString(indent);
    if text != [] {
      var out, rest := Indented(text, insert), Indented(text[1..], insert);
      UnindentIndented(text[1..], indent);
      if text[0] == NEWLINE {
        assert out == insert + rest && out[0] == NEWLINE && out[indent + 1..] == rest;
      } else {
        assert out == [text[0]] + rest && out[1..] == rest;
      }
    }
  }

  function Newlines(text: seq<byte>): (n: nat) {
    if text == [] then 0 else (if text[0] == NEWLINE then 1 else 0) + Newlines(text[1..])
  }

  /** Each newline is replaced exactly once: the text grows by the indent for every newline of the original. */
  lemma {:induction false} IndentedLength(text: seq<byte>, indent: nat)
    ensures |Indented(text, IndentString(indent))| == |text| + indent * Newlines(text)
    ensures Newlines(Indented(text, IndentString(indent))) == Newlines(text)
  {
    hide IndentString;
    var insert := IndentString(indent);
    if text != [] {
      IndentedLength(text[1..], indent);
      var first, later := if text[0] == NEWLINE then insert else [text[0]], Indented(text[1..], insert);
      NewlinesConcat(first, later);
      OneNewline(indent);
      assert [text[0]][1..] == [];
      assert Indented(text, insert) == first + later;
    }
  }

  lemma OneNewline(indent: nat)
    ensures Newlines(IndentString(indent)) == 1
  {
    NoNewlines(IndentString(indent)[1..]);
  }

  lemma {:induction false} NewlinesConcat(a: seq<byte>, b: seq<byte>)
    ensures Newlines(a + b) == Newlines(a) + Newlines(b)
  {
    if a == [] {
      assert a + b == b;
    } else {
      NewlinesConcat(a[1..], b);
      assert (a + b)[1..] == a[1..] + b;
    }
  }

  lemma {:induction false} NoNewlines(a: seq<byte>)
    requires NEWLINE !in a
    ensures Newlines(a) == 0
  {
    if a != [] {
      NoNewlines(a[1..]);
    }
  }
}
