/** Reassembly compared with cutting the whole stream at its length prefixes, and what a prefix in pieces does to it. */
module Framing {
  import opened Bytes
  import opened Requests
  import opened Receiver

  /** The complete frames at the front of a stream, and the rest. */
  function SplitFrames(stream: seq<byte>, max: nat): (seq<seq<byte>>, seq<byte>)
    decreases |stream|
  {
    if |stream| < 4 then ([], stream)
    else
      var n := FromLE(stream[..4]);
      if n <= 4 || n > max || n > |stream| then ([], stream)
      else
        var (frames, rest) := SplitFrames(stream[n..], max);
        ([stream[..n]] + frames, rest)
  }

  function Concat(frames: seq<seq<byte>>): seq<byte> {
    if frames == [] then [] else frames[0] + Concat(frames[1..])
  }

  /** A frame begins with its own length. */
  predicate IsFrame(f: seq<byte>, max: nat) {
    4 < |f| <= max && FromLE(f[..4]) == |f|
  }

  lemma {:induction false} ConcatAppend(frames: seq<seq<byte>>, f: seq<byte>)
    ensures Concat(frames + [f]) == Concat(frames) + f
  {
    if frames == [] {
      assert frames + [f] == [f];
    } else {
      ConcatAppend(frames[1..], f);
      assert (frames + [f])[1..] == frames[1..] + [f];
    }
  }

  lemma {:induction false} SplitOfConcat(frames: seq<seq<byte>>, rest: seq<byte>, max: nat)
    requires forall i | 0 <= i < |frames| :: IsFrame(frames[i], max)
    requires SplitFrames(rest, max) == ([], rest)
    ensures SplitFrames(Concat(frames) + rest, max) == (frames, rest)
    decreases |frames|
  {
    if frames == [] {
      assert Concat(frames) + rest == rest;
    } else {
      var f := frames[0];
      var stream, tail := Concat(frames) + rest, Concat(frames[1..]) + rest;
      assert stream == f + tail;
      SplitOfConcat(frames[1..], rest, max);
      SplitStep(f, tail, max);
      assert frames == [f] + frames[1..];
    }
  }

  lemma SplitStep(f: seq<byte>, tail: seq<byte>, max: nat)
    requires IsFrame(f, max)
    ensures SplitFrames(f + tail, max) == ([f] + SplitFrames(tail, max).0, SplitFrames(tail, max).1)
  {
    hide FromLE;
    var stream := f + tail;
    assert stream[..4] == f[..4] && stream[..|f|] == f && stream[|f|..] == tail;
  }

  // Reassembly

  /** The bytes consumed since the last frame boundary. */
  function Pending(s: Receiving): seq<byte> {
    var n := |Concat(s.frames)|;
    if n <= |s.consumed| then s.consumed[n..] else []
  }

  /** If this recv completes a length prefix, the length then in memory is the one that its four bytes say. */
  predicate ReadsRight(s: Receiving, e: Event) {
    e.Recv? && s.inPrefix && s.offset + |e.chunk| == 4 ==> Overlay(s.length, e.chunk) == FromLE(Pending(s) + e.chunk)
  }

  /** Every length prefix in the run is read right; prefixes and bodies may arrive in any pieces. */
  predicate PrefixesReadRight(s: Receiving, es: seq<Event>)
    requires CanRun(s, es)
    decreases |es|
  {
    es == [] || (ReadsRight(s, es[0]) && PrefixesReadRight(Step(s, es[0]), es[1..]))
  }

  /** What is in the receive buffer: the bytes consumed since the last frame boundary. */
  ghost predicate Framed(s: Receiving) {
    && Sane(s)
    && (forall i | 0 <= i < |s.frames| :: IsFrame(s.frames[i], s.maxLength))
    && s.consumed == Concat(s.frames) + Pending(s)
    && if s.inPrefix then |Pending(s)| == s.offset
       else Pending(s) == s.filled && 4 <= |s.filled| && FromLE(s.filled[..4]) == s.length <= s.maxLength
            && (|s.filled| < s.length || s.length == 4)
  }

  lemma PendingIs(s: Receiving, rest: seq<byte>)
    requires s.consumed == Concat(s.frames) + rest
    ensures Pending(s) == rest
  {
  }

  lemma PrefixArrives(s: Receiving, chunk: seq<byte>)
    requires Framed(s) && s.inPrefix && 0 < |chunk| <= Wanted(s) && ReceiveStep(s, chunk).1 == Alive
    requires ReadsRight(s, Recv(chunk))
    ensures Framed(ReceiveStep(s, chunk).0)
  {
    hide Concat, FromLE, LE, Overlay, Pending;
    var t, p := ReceiveStep(s, chunk).0, Pending(s) + chunk;
    OverlayBound(s.length, chunk);
    assert Concat(s.frames) + Pending(s) + chunk == Concat(s.frames) + p;
    PendingIs(t, p);
    if |p| == 4 {
      WritesBack(p);
      assert t.length == FromLE(p) && t.filled == p;
      assert p[..4] == p;
    }
  }

  lemma BodyArrives(s: Receiving, chunk: seq<byte>)
    requires Framed(s) && !s.inPrefix && 0 < |chunk| <= Wanted(s) && ReceiveStep(s, chunk).1 == Alive
    ensures Framed(ReceiveStep(s, chunk).0)
    ensures ReceiveStep(s, chunk).0.inPrefix ==> ReceiveStep(s, chunk).0.offset == 0
  {
    hide Concat, DecodeMessage, FromLE, Pending;
    var t, f := ReceiveStep(s, chunk).0, s.filled + chunk;
    assert f[..4] == s.filled[..4];
    assert Concat(s.frames) + s.filled + chunk == Concat(s.frames) + f;
    if |f| == s.length {
      ConcatAppend(s.frames, f);
      assert t.frames == s.frames + [f] && t.filled == [];
      assert Concat(t.frames) + [] == Concat(t.frames);
      assert IsFrame(f, s.maxLength);
      PendingIs(t, []);
    } else {
      PendingIs(t, f);
    }
  }

  lemma StepFrames(s: Receiving, e: Event)
    requires Framed(s) && Enabled(s, e) && ReadsRight(s, e)
    ensures Framed(Step(s, e)) && Step(s, e).maxLength == s.maxLength
  {
    hide Concat, DecodeMessage, FromLE, LE;
    match e
    case Recv(chunk) =>
      SaneStep(s, chunk);
      if s.inPrefix {
        PrefixArrives(s, chunk);
      } else {
        BodyArrives(s, chunk);
      }
    case _ =>
  }

  lemma {:induction false} RunFrames(s: Receiving, es: seq<Event>)
    requires Framed(s) && CanRun(s, es) && PrefixesReadRight(s, es)
    ensures Framed(After(s, es)) && After(s, es).maxLength == s.maxLength
    decreases |es|
  {
    if es != [] {
      StepFrames(s, es[0]);
      RunFrames(Step(s, es[0]), es[1..]);
    }
  }

  lemma FramedIsSplit(s: Receiving)
    requires Framed(s)
    ensures SplitFrames(s.consumed, s.maxLength) == (s.frames, Pending(s))
  {
    assert SplitFrames(Pending(s), s.maxLength) == ([], Pending(s));
    SplitOfConcat(s.frames, Pending(s), s.maxLength);
  }

  /**
   Reassembly refines one-shot splitting: after every run whose prefixes are read right, the frames received are those
   of the consumed stream cut at its length prefixes, and what is behind the last of them is what the connection still
   holds: a prefix of which `offset` bytes have come, or the receive buffer.
   */
  lemma ReassemblyRefinesSplit(maxLength: nat, blockSize: nat, es: seq<Event>)
    requires maxLength < TWO_32
    requires CanRun(Listening(maxLength, blockSize), es) && PrefixesReadRight(Listening(maxLength, blockSize), es)
    ensures var t := After(Listening(maxLength, blockSize), es);
            var (frames, rest) := SplitFrames(t.consumed, maxLength);
            && frames == t.frames && |rest| == t.offset
            && (t.inPrefix ==> t.offset < 4)
            && (!t.inPrefix ==> rest == t.filled && t.offset <= t.length)
  {
    RunFrames(Listening(maxLength, blockSize), es);
    FramedIsSplit(After(Listening(maxLength, blockSize), es));
  }

  /** Two runs that consumed the same bytes, in whatever pieces, have the same frames and decoded the same requests. */
  lemma ChunkingIsInvisible(maxLength: nat, blockSize: nat, es: seq<Event>, blockSize': nat, es': seq<Event>)
    requires maxLength < TWO_32
    requires CanRun(Listening(maxLength, blockSize), es) && PrefixesReadRight(Listening(maxLength, blockSize), es)
    requires CanRun(Listening(maxLength, blockSize'), es') && PrefixesReadRight(Listening(maxLength, blockSize'), es')
    requires After(Listening(maxLength, blockSize), es).consumed
             == After(Listening(maxLength, blockSize'), es').consumed
    ensures var t, t' := After(Listening(maxLength, blockSize), es), After(Listening(maxLength, blockSize'), es');
            t.frames == t'.frames && LogMessages(t.log) == LogMessages(t'.log)
  {
    ReassemblyRefinesSplit(maxLength, blockSize, es);
    ReassemblyRefinesSplit(maxLength, blockSize', es');
    DeliveryPartition(Listening(maxLength, blockSize), es);
    DeliveryPartition(Listening(maxLength, blockSize'), es');
  }

  // Prefixes that arrive whole

  /** No length prefix has begun. */
  predicate NoPart(s: Receiving) {
    s.inPrefix ==> s.offset == 0
  }

  /** Every length prefix in the run arrives in one recv; bodies may arrive in any pieces. */
  predicate WholePrefixes(s: Receiving, es: seq<Event>)
    requires CanRun(s, es)
    decreases |es|
  {
    es == [] || ((es[0].Recv? && s.inPrefix ==> |es[0].chunk| == 4) && WholePrefixes(Step(s, es[0]), es[1..]))
  }

  lemma WholeStep(s: Receiving, e: Event)
    requires Framed(s) && NoPart(s) && Enabled(s, e) && (e.Recv? && s.inPrefix ==> |e.chunk| == 4)
    ensures ReadsRight(s, e) && Framed(Step(s, e)) && NoPart(Step(s, e)) && Step(s, e).maxLength == s.maxLength
  {
    hide Concat, DecodeMessage, FromLE, LE;
    if e.Recv? && s.inPrefix {
      assert Pending(s) + e.chunk == e.chunk == e.chunk + LE(s.length, 4)[4..];
    } else if e.Recv? {
      BodyArrives(s, e.chunk);
    }
    StepFrames(s, e);
  }

  lemma PendingIsFilled(s: Receiving)
    requires Framed(s) && NoPart(s)
    ensures Pending(s) == s.filled
  {
  }

  /** A prefix that arrives in one recv is read right. */
  lemma {:induction false} WholePrefixesReadRight(s: Receiving, es: seq<Event>)
    requires Framed(s) && NoPart(s) && CanRun(s, es) && WholePrefixes(s, es)
    ensures PrefixesReadRight(s, es)
    decreases |es|
  {
    hide Framed, ReadsRight, Step, NoPart;
    if es != [] {
      WholeStep(s, es[0]);
      WholePrefixesReadRight(Step(s, es[0]), es[1..]);
    }
  }

  // A length prefix that arrives in pieces

  /** recv writes every piece to the first bytes of recv_buffer_length, whatever came before. */
  function MemoryAfter(memory: seq<byte>, p: seq<byte>, sizes: seq<nat>): (m: seq<byte>)
    requires |memory| == 4 && Sum(sizes) == |p| <= 4
    ensures |m| == 4
    decreases |sizes|
  {
    if sizes == [] then memory
    else MemoryAfter(p[..sizes[0]] + memory[sizes[0]..], p[sizes[0]..], sizes[1..])
  }

  function Sum(sizes: seq<nat>): nat {
    if sizes == [] then 0 else sizes[0] + Sum(sizes[1..])
  }

  predicate Positive(sizes: seq<nat>, total: nat) {
    Sum(sizes) == total && forall i | 0 <= i < |sizes| :: sizes[i] > 0
  }

  /** The pieces of p, one recv each. */
  function Pieces(p: seq<byte>, sizes: seq<nat>): seq<Event>
    requires Sum(sizes) == |p|
    decreases |sizes|
  {
    if sizes == [] then [] else [Recv(p[..sizes[0]])] + Pieces(p[sizes[0]..], sizes[1..])
  }

  lemma SumPositive(sizes: seq<nat>)
    requires forall i | 0 <= i < |sizes| :: sizes[i] > 0
    ensures Sum(sizes) == 0 <==> sizes == []
  {
  }

  /** A length is read back right exactly when the memory holds its own bytes. */
  lemma SameBytesSameLength(m: seq<byte>, p: seq<byte>)
    requires |m| == |p| == 4
    ensures FromLE(m) == FromLE(p) <==> m == p
  {
    WritesBack(m);
    WritesBack(p);
  }

  /**
   When a prefix p arrives in pieces of the given sizes, its length is read right exactly if it comes in one piece, or
   in one of two splittings whose overwritten bytes happen to be zero, or if all its bytes are zero.
   */
  lemma PrefixReadRight(p: seq<byte>, sizes: seq<nat>)
    requires |p| == 4 && Positive(sizes, 4)
    ensures FromLE(MemoryAfter([0, 0, 0, 0], p, sizes)) == FromLE(p) <==>
            || sizes == [4]
            || (sizes == [3, 1] && p[0] == p[3] == 0)
            || (sizes == [2, 1, 1] && p[0] == p[2] == p[3] == 0)
            || p == [0, 0, 0, 0]
  {
    hide FromLE, MemoryAfter, Sum;
    SameBytesSameLength(MemoryAfter([0, 0, 0, 0], p, sizes), p);
    Left4([0, 0, 0, 0], p, sizes);
    assert p == [p[0], p[1], p[2], p[3]];
  }

  /** For every length that is not a multiple of 256: it is read right exactly if its prefix comes in one piece. */
  lemma SplitPrefixMisread(length: nat, sizes: seq<nat>)
    requires length < TWO_32 && length % 256 != 0 && Positive(sizes, 4)
    ensures FromLE(MemoryAfter([0, 0, 0, 0], LE(length, 4), sizes)) == length <==> |sizes| == 1
  {
    FieldReadsBack(length);
    PrefixReadRight(LE(length, 4), sizes);
    assert LE(length, 4)[0] == length % 256;
    if |sizes| == 1 {
      assert sizes[1..] == [];
    }
  }

  lemma FirstSize(sizes: seq<nat>, total: nat)
    requires total > 0 && Positive(sizes, total)
    ensures sizes != [] && 0 < sizes[0] <= total && sizes == [sizes[0]] + sizes[1..]
    ensures Positive(sizes[1..], total - sizes[0]) && (sizes[0] == total <==> sizes[1..] == [])
  {
    var rest := sizes[1..];
    assert forall i | 0 <= i < |rest| :: rest[i] == sizes[i + 1];
    SumPositive(rest);
  }

  /** The first piece is written, the others are still to come. */
  lemma FirstPiece(m: seq<byte>, p: seq<byte>, sizes: seq<nat>)
    requires |m| == 4 && 0 < |p| <= 4 && Positive(sizes, |p|)
    ensures sizes != [] && 0 < sizes[0] <= |p| && sizes == [sizes[0]] + sizes[1..]
    ensures Positive(sizes[1..], |p| - sizes[0])
    ensures sizes[0] == |p| <==> sizes[1..] == []
    ensures MemoryAfter(m, p, sizes) == MemoryAfter(p[..sizes[0]] + m[sizes[0]..], p[sizes[0]..], sizes[1..])
    ensures sizes[1..] == [] ==> MemoryAfter(m, p, sizes) == p + m[|p|..]
  {
    hide Sum;
    FirstSize(sizes, |p|);
    if sizes[1..] == [] {
      assert p[..sizes[0]] == p;
    }
  }

  lemma Left1(m: seq<byte>, p: seq<byte>, sizes: seq<nat>)
    requires |m| == 4 && |p| == 1 && Positive(sizes, 1)
    ensures sizes == [1] && MemoryAfter(m, p, sizes) == [p[0], m[1], m[2], m[3]]
  {
    hide MemoryAfter, Sum;
    FirstPiece(m, p, sizes);
  }

  lemma Left2(m: seq<byte>, p: seq<byte>, sizes: seq<nat>)
    requires |m| == 4 && |p| == 2 && Positive(sizes, 2)
    ensures (sizes == [2] && MemoryAfter(m, p, sizes) == [p[0], p[1], m[2], m[3]])
            || (sizes == [1, 1] && MemoryAfter(m, p, sizes) == [p[1], m[1], m[2], m[3]])
  {
    hide MemoryAfter, Sum;
    FirstPiece(m, p, sizes);
    if sizes[0] == 1 {
      Left1(p[..1] + m[1..], p[1..], sizes[1..]);
    }
  }

  lemma Left3(m: seq<byte>, p: seq<byte>, sizes: seq<nat>)
    requires |m| == 4 && |p| == 3 && Positive(sizes, 3)
    ensures var r := MemoryAfter(m, p, sizes);
            || (sizes == [3] && r == [p[0], p[1], p[2], m[3]])
            || (sizes == [1, 2] && r == [p[1], p[2], m[2], m[3]])
            || (sizes == [2, 1] && r == [p[2], p[1], m[2], m[3]])
            || (sizes == [1, 1, 1] && r == [p[2], m[1], m[2], m[3]])
  {
    hide MemoryAfter, Sum;
    FirstPiece(m, p, sizes);
    if sizes[0] == 1 {
      Left2(p[..1] + m[1..], p[1..], sizes[1..]);
    } else if sizes[0] == 2 {
      Left1(p[..2] + m[2..], p[2..], sizes[1..]);
    }
  }

  lemma Left4(m: seq<byte>, p: seq<byte>, sizes: seq<nat>)
    requires |m| == 4 && |p| == 4 && Positive(sizes, 4)
    ensures var r := MemoryAfter(m, p, sizes);
            || (sizes == [4] && r == p)
            || (sizes == [1, 3] && r == [p[1], p[2], p[3], m[3]])
            || (sizes == [1, 1, 2] && r == [p[2], p[3], m[2], m[3]])
            || (sizes == [1, 2, 1] && r == [p[3], p[2], m[2], m[3]])
            || (sizes == [1, 1, 1, 1] && r == [p[3], m[1], m[2], m[3]])
            || (sizes == [2, 2] && r == [p[2], p[3], m[2], m[3]])
            || (sizes == [2, 1, 1] && r == [p[3], p[1], m[2], m[3]])
            || (sizes == [3, 1] && r == [p[3], p[1], p[2], m[3]])
  {
    hide MemoryAfter, Sum;
    FirstPiece(m, p, sizes);
    if sizes[0] == 1 {
      Left3(p[..1] + m[1..], p[1..], sizes[1..]);
    } else if sizes[0] == 2 {
      Left2(p[..2] + m[2..], p[2..], sizes[1..]);
    } else if sizes[0] == 3 {
      Left1(p[..3] + m[3..], p[3..], sizes[1..]);
    }
  }

  // The same, said of Receive

  /** Receive called once for each piece of what is missing of a prefix, until it fails. */
  function Fed(s: Receiving, p: seq<byte>, sizes: seq<nat>): (r: (Receiving, ReceiveResult))
    requires Sane(s) && s.inPrefix && s.offset + |p| == 4 && Positive(sizes, |p|)
    decreases |sizes|
  {
    FirstSize(sizes, |p|);
    var chunk, rest := p[..sizes[0]], p[sizes[0]..];
    var (t, result) := ReceiveStep(s, chunk);
    if rest == [] then (t, result)
    else
      SaneStep(s, chunk);
      Fed(t, rest, sizes[1..])
  }

  /** What became of a length n that was read at the end of a prefix. */
  function Verdict(n: nat, maxLength: nat): ReceiveResult {
    if n > maxLength then Dead else if n < 4 then Escaped else Alive
  }

  /** Receiving a prefix in pieces leaves in recv_buffer_length what the writes leave in memory, and goes by that. */
  lemma {:induction false} FedReads(s: Receiving, p: seq<byte>, sizes: seq<nat>)
    requires Sane(s) && s.inPrefix && s.offset + |p| == 4 && Positive(sizes, |p|)
    ensures var n := FromLE(MemoryAfter(LE(s.length, 4), p, sizes));
            Fed(s, p, sizes).0.length == n && Fed(s, p, sizes).1 == Verdict(n, s.maxLength)
    decreases |sizes|
  {
    hide FromLE, LE, Sum;
    WordSizes();
    FirstPiece(LE(s.length, 4), p, sizes);
    var chunk, rest, now := p[..sizes[0]], p[sizes[0]..], p[..sizes[0]] + LE(s.length, 4)[sizes[0]..];
    var t := ReceiveStep(s, chunk).0;
    assert t.length == FromLE(now);
    if rest == [] {
      assert MemoryAfter(now, rest, sizes[1..]) == now;
    } else {
      WritesBack(now);
      SaneStep(s, chunk);
      FedReads(t, rest, sizes[1..]);
    }
  }

  /** The pieces are a run exactly when the last Receive does not fail. */
  lemma {:induction false} FedIsRun(s: Receiving, p: seq<byte>, sizes: seq<nat>)
    requires Sane(s) && s.inPrefix && s.offset + |p| == 4 && Positive(sizes, |p|)
    ensures CanRun(s, Pieces(p, sizes)) <==> Fed(s, p, sizes).1 == Alive
    ensures Fed(s, p, sizes).1 == Alive ==> After(s, Pieces(p, sizes)) == Fed(s, p, sizes).0
    decreases |sizes|
  {
    hide FromLE, LE, Sum, Overlay;
    FirstSize(sizes, |p|);
    var chunk, rest, es := p[..sizes[0]], p[sizes[0]..], Pieces(p, sizes);
    assert es[0] == Recv(chunk) && es[1..] == Pieces(rest, sizes[1..]);
    if rest == [] {
      assert sizes[1..] == [] && es[1..] == [];
    } else {
      SaneStep(s, chunk);
      FedIsRun(ReceiveStep(s, chunk).0, rest, sizes[1..]);
    }
  }

  /**
   A whole prefix received in pieces from a frame boundary: the length is read right exactly in the cases of
   PrefixReadRight, and whatever length is read decides what happens: above the limit the connection ends, below 4 the
   prefix does not fit into its buffer, else the body of a frame of that length is received next.
   */
  lemma LengthReadRight(s: Receiving, p: seq<byte>, sizes: seq<nat>)
    requires Sane(s) && s.inPrefix && s.offset == 0 && s.length == 0 && |p| == 4 && Positive(sizes, 4)
    ensures var (t, result) := Fed(s, p, sizes);
            && (result == Dead <==> t.length > s.maxLength)
            && (result == Escaped <==> t.length <= s.maxLength && t.length < 4)
            && (CanRun(s, Pieces(p, sizes)) <==> result == Alive)
            && (result == Alive ==> t == After(s, Pieces(p, sizes)))
            && (t.length == FromLE(p) <==>
                  || sizes == [4]
                  || (sizes == [3, 1] && p[0] == p[3] == 0)
                  || (sizes == [2, 1, 1] && p[0] == p[2] == p[3] == 0)
                  || p == [0, 0, 0, 0])
  {
    hide CanRun, After, FromLE, MemoryAfter, Fed, Pieces;
    FedReads(s, p, sizes);
    FedIsRun(s, p, sizes);
    assert LE(0, 4) == [0, 0, 0, 0];
    PrefixReadRight(p, sizes);
  }
}
