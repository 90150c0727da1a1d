/** Cutting a byte stream into TLV elements with a fixed buffer (StreamTransport). */
module StreamTransports {
  import opened Basics

  // ---------------------------------------------------------------- parsing

  /** Block::fromBuffer, as far as framing is concerned: the size of the element at the start
      of the bytes, or None if there is no complete element. */
  type Parser = seq<Byte> -> Option<nat>

  /** More bytes do not change an element that is already complete. */
  ghost predicate PrefixStable(parse: Parser) {
    forall s, t :: StableAt(parse, s, t)
  }

  ghost predicate StableAt(parse: Parser, s: seq<Byte>, t: seq<Byte>) {
    parse(s).Some? ==> 0 < parse(s).value <= |s| && parse(s + t) == parse(s)
  }

  /** Elements taken from the front as long as there are complete ones, and what is left. */
  function Greedy(parse: Parser, s: seq<Byte>): (r: (seq<seq<Byte>>, seq<Byte>))
    decreases |s|
  {
    match parse(s)
    case None => ([], s)
    case Some(k) =>
      if 0 < k <= |s| then
        var rest := Greedy(parse, s[k..]);
        ([s[..k]] + rest.0, rest.1)
      else ([], s)
  }

  function Flatten(ss: seq<seq<Byte>>): (r: seq<Byte>) {
    if ss == [] then [] else ss[0] + Flatten(ss[1..])
  }

  /** No byte is lost or invented. */
  lemma {:induction false} GreedyKeepsBytes(parse: Parser, s: seq<Byte>)
    ensures Flatten(Greedy(parse, s).0) + Greedy(parse, s).1 == s
    decreases |s|
  {
    match parse(s)
    case None =>
    case Some(k) =>
      if 0 < k <= |s| {
        GreedyKeepsBytes(parse, s[k..]);
        var rest := Greedy(parse, s[k..]);
        assert ([s[..k]] + rest.0)[1..] == rest.0;
        assert s == s[..k] + (Flatten(rest.0) + rest.1);
      }
  }

  lemma {:induction false} GreedyShrinks(parse: Parser, s: seq<Byte>)
    ensures |Greedy(parse, s).1| <= |s|
    decreases |s|
  {
    match parse(s)
    case None =>
    case Some(k) =>
      if 0 < k <= |s| {
        GreedyShrinks(parse, s[k..]);
      }
  }

  /** Parsing can be interrupted anywhere and resumed with the bytes left over. */
  lemma {:induction false} GreedyResumes(parse: Parser, s: seq<Byte>, t: seq<Byte>)
    requires PrefixStable(parse)
    ensures var first := Greedy(parse, s);
            var second := Greedy(parse, first.1 + t);
            Greedy(parse, s + t) == (first.0 + second.0, second.1)
    decreases |s|
  {
    match parse(s)
    case None =>
      var second := Greedy(parse, s + t);
      assert [] + second.0 == second.0;
    case Some(k) =>
      assert StableAt(parse, s, t);
      assert (s + t)[k..] == s[k..] + t && (s + t)[..k] == s[..k];
      GreedyResumes(parse, s[k..], t);
      var rest := Greedy(parse, s[k..]);
      var second := Greedy(parse, rest.1 + t);
      assert [s[..k]] + (rest.0 + second.0) == ([s[..k]] + rest.0) + second.0;
  }

  /** A stream of complete elements is cut back into exactly those elements. */
  lemma {:induction false} GreedyInvertsFlatten(parse: Parser, es: seq<seq<Byte>>)
    requires PrefixStable(parse) && parse([]) == None
    requires forall i :: 0 <= i < |es| ==> parse(es[i]) == Some(|es[i]|)
    ensures Greedy(parse, Flatten(es)) == (es, [])
  {
    if es != [] {
      var rest := Flatten(es[1..]);
      GreedyInvertsFlatten(parse, es[1..]);
      assert parse(es[0]) == Some(|es[0]|);
      assert StableAt(parse, es[0], rest);
      assert (es[0] + rest)[|es[0]|..] == rest && (es[0] + rest)[..|es[0]|] == es[0];
      assert [es[0]] + es[1..] == es;
    }
  }

  // ---------------------------------------------------------------- reads

  const CAPACITY: nat := 8800

  /** Each read fits the free space of the buffer, and none happens after a failure. */
  ghost predicate Readable(parse: Parser, chunks: seq<seq<Byte>>) {
    forall i :: 0 <= i < |chunks| ==>
      var left := |Greedy(parse, Flatten(chunks[..i])).1|;
      left < CAPACITY && left + |chunks[i]| <= CAPACITY
  }

  /** What the transport delivered and what its buffer holds after the chunks are read. */
  function AfterReads(parse: Parser, chunks: seq<seq<Byte>>): (r: (seq<seq<Byte>>, seq<Byte>)) {
    if chunks == [] then ([], [])
    else
      var before := AfterReads(parse, chunks[..|chunks| - 1]);
      var now := Greedy(parse, before.1 + chunks[|chunks| - 1]);
      (before.0 + now.0, now.1)
  }

  lemma {:induction false} FlattenAppend(ss: seq<seq<Byte>>, t: seq<Byte>)
    ensures Flatten(ss + [t]) == Flatten(ss) + t
  {
    if ss == [] {
      assert [t][1..] == [];
    } else {
      assert (ss + [t])[1..] == ss[1..] + [t];
      FlattenAppend(ss[1..], t);
    }
  }

  /** Chunk independence: however the stream is split into chunks, what has been delivered and
      what is buffered is the one-shot parse of the bytes read. */
  lemma {:induction false} ChunksDoNotMatter(parse: Parser, chunks: seq<seq<Byte>>)
    requires PrefixStable(parse)
    ensures AfterReads(parse, chunks) == Greedy(parse, Flatten(chunks))
  {
    if chunks != [] {
      var before, t := chunks[..|chunks| - 1], chunks[|chunks| - 1];
      assert chunks == before + [t];
      ChunksDoNotMatter(parse, before);
      FlattenAppend(before, t);
      GreedyResumes(parse, Flatten(before), t);
    }
  }

  lemma {:induction false} FlattenPrefix(chunks: seq<seq<Byte>>, p: seq<Byte>) returns (i: nat, c: seq<Byte>)
    requires p < Flatten(chunks)
    ensures i < |chunks| && c < chunks[i] && p == Flatten(chunks[..i]) + c
  {
    if p < chunks[0] {
      i, c := 0, p;
      assert p == Flatten([]) + p;
    } else {
      var q := p[|chunks[0]|..];
      assert p == chunks[0] + q;
      assert q < Flatten(chunks[1..]) by {
        assert Flatten(chunks)[|chunks[0]|..] == Flatten(chunks[1..]);
        assert |q| < |Flatten(chunks[1..])|;
        assert forall j :: 0 <= j < |q| ==> q[j] == Flatten(chunks)[|chunks[0]| + j];
      }
      var j;
      j, c := FlattenPrefix(chunks[1..], q);
      i := j + 1;
      assert chunks[..i][1..] == chunks[1..][..j];
      assert p == chunks[0] + (Flatten(chunks[1..][..j]) + c);
    }
  }

  /** The point of failure does not depend on the chunks either: until all bytes are read, no
      prefix of the stream, whether or not a read ended there, has an unparsable tail that
      fills the buffer. */
  lemma FailurePointIsIntrinsic(parse: Parser, chunks: seq<seq<Byte>>, p: seq<Byte>)
    requires PrefixStable(parse) && Readable(parse, chunks)
    requires p < Flatten(chunks)
    ensures |Greedy(parse, p).1| < CAPACITY
  {
    var i, c := FlattenPrefix(chunks, p);
    GreedyResumes(parse, Flatten(chunks[..i]), c);
    GreedyShrinks(parse, Greedy(parse, Flatten(chunks[..i])).1 + c);
  }

  /** ... and after all of them the tail still fits. */
  lemma TailFits(parse: Parser, chunks: seq<seq<Byte>>)
    requires PrefixStable(parse) && Readable(parse, chunks)
    ensures |Greedy(parse, Flatten(chunks)).1| <= CAPACITY
  {
    if chunks != [] {
      var n := |chunks| - 1;
      assert chunks == chunks[..n] + [chunks[n]];
      FlattenAppend(chunks[..n], chunks[n]);
      GreedyResumes(parse, Flatten(chunks[..n]), chunks[n]);
      GreedyShrinks(parse, Greedy(parse, Flatten(chunks[..n])).1 + chunks[n]);
    }
  }

  // ---------------------------------------------------------------- the object

  class StreamTransport {
    const parse: Parser
    const receiveBuffer: array<Byte>
    var receiveBufferSize: nat
    var failed: bool
    var delivered: seq<seq<Byte>>
    ghost var received: seq<Byte>

    /** All elements of the bytes received so far have been delivered and only the
        unparsable tail is buffered; the transport has failed exactly if that tail fills the
        buffer. */
    ghost predicate Valid()
      reads this, receiveBuffer
    {
      && PrefixStable(parse)
      && receiveBuffer.Length == CAPACITY && receiveBufferSize <= CAPACITY
      && (delivered, receiveBuffer[..receiveBufferSize]) == Greedy(parse, received)
      && (failed <==> receiveBufferSize == CAPACITY)
    }

    constructor (parse: Parser)
      requires PrefixStable(parse)
      ensures Valid() && fresh(receiveBuffer) && !failed && received == [] && delivered == []
      ensures this.parse == parse
    {
      this.parse := parse;
      receiveBuffer := new Byte[CAPACITY](_ => 0);
      receiveBufferSize, failed, delivered, received := 0, false, [], [];
    }

    /** startReceive offers at least one free octet for the next read. */
    method StartReceive() returns (offset: nat, size: nat)
      requires Valid() && !failed
      ensures offset == receiveBufferSize && offset + size == receiveBuffer.Length && size > 0
    {
      offset, size := receiveBufferSize, receiveBuffer.Length - receiveBufferSize;
    }

    /** The socket writing into the space offered by startReceive. */
    method Fill(chunk: seq<Byte>)
      requires receiveBufferSize + |chunk| <= receiveBuffer.Length
      modifies this`receiveBufferSize, receiveBuffer
      ensures receiveBufferSize == old(receiveBufferSize) + |chunk|
      ensures receiveBuffer[..receiveBufferSize] == old(receiveBuffer[..receiveBufferSize]) + chunk
    {
      var at := receiveBufferSize;
      for i := 0 to |chunk|
        invariant receiveBufferSize == at
        invariant receiveBuffer[..at] == old(receiveBuffer[..receiveBufferSize])
        invariant receiveBuffer[at..at + i] == chunk[..i]
      {
        receiveBuffer[at + i] := chunk[i];
      }
      receiveBufferSize := at + |chunk|;
      assert receiveBuffer[..receiveBufferSize] == receiveBuffer[..at] + receiveBuffer[at..receiveBufferSize];
    }

    /** The parsing loop of handleReceive; returns where the unparsed bytes start. */
    method DeliverElements() returns (begin: nat)
      requires PrefixStable(parse) && receiveBufferSize <= receiveBuffer.Length
      modifies this`delivered
      ensures begin <= receiveBufferSize
      ensures var r := Greedy(parse, receiveBuffer[..receiveBufferSize]);
              && delivered == old(delivered) + r.0
              && receiveBuffer[begin..receiveBufferSize] == r.1
    {
      begin := 0;
      ghost var bytes := receiveBuffer[..receiveBufferSize];
      ghost var elements := [];
      assert bytes[0..] == bytes;
      assert elements + Greedy(parse, bytes).0 == Greedy(parse, bytes).0;
      while begin < receiveBufferSize
        invariant begin <= receiveBufferSize
        invariant delivered == old(delivered) + elements
        invariant var rest := Greedy(parse, bytes[begin..]);
                  Greedy(parse, bytes) == (elements + rest.0, rest.1)
        decreases receiveBufferSize - begin
      {
        var unparsed := receiveBuffer[begin..receiveBufferSize];
        assert unparsed == bytes[begin..];
        assert StableAt(parse, unparsed, []);
        var size := parse(unparsed);
        if size.None? {
          assert elements + [] == elements;
          return;
        }
        var element := unparsed[..size.value];
        GreedyStep(parse, bytes, begin, size.value, elements);
        elements := elements + [element];
        delivered := delivered + [element];
        begin := begin + size.value;
      }
      assert bytes[begin..] == [];
      assert StableAt(parse, [], []);
      assert elements + [] == elements;
    }

    /** Moving the unparsed bytes to the beginning of the buffer, in place. */
    method Compact(begin: nat)
      requires 0 < begin <= receiveBufferSize <= receiveBuffer.Length
      modifies this`receiveBufferSize, receiveBuffer
      ensures receiveBufferSize == old(receiveBufferSize) - begin
      ensures receiveBuffer[..receiveBufferSize] == old(receiveBuffer[begin..receiveBufferSize])
    {
      var n := receiveBufferSize - begin;
      for i := 0 to n
        invariant receiveBufferSize == old(receiveBufferSize)
        invariant forall j :: 0 <= j < i ==> receiveBuffer[j] == old(receiveBuffer[begin + j])
        invariant forall j :: i <= j < receiveBuffer.Length ==> receiveBuffer[j] == old(receiveBuffer[j])
      {
        receiveBuffer[i] := receiveBuffer[begin + i];
      }
      receiveBufferSize := n;
    }

    /** handleReceive for a read without error.  `chunk` is what the socket wrote into the
        space offered by startReceive. */
    method HandleReceive(chunk: seq<Byte>)
      requires Valid() && !failed && receiveBufferSize + |chunk| <= CAPACITY
      modifies this, receiveBuffer
      ensures Valid()
      ensures received == old(received) + chunk
      ensures failed <==> |Greedy(parse, received).1| == CAPACITY
    {
      ghost var before := receiveBuffer[..receiveBufferSize];
      GreedyResumes(parse, received, chunk);
      received := received + chunk;
      Fill(chunk);
      var begin := DeliverElements();
      ghost var tail := receiveBuffer[begin..receiveBufferSize];
      if begin == receiveBufferSize {
        receiveBufferSize := 0;
        assert receiveBuffer[..0] == tail;
      } else if begin != 0 {
        Compact(begin);
      } else if receiveBufferSize == receiveBuffer.Length {
        failed := true;
        assert receiveBuffer[..receiveBufferSize] == tail;
      } else {
        assert receiveBuffer[..receiveBufferSize] == tail;
      }
    }
  }

  lemma GreedyStep(parse: Parser, bytes: seq<Byte>, begin: nat, k: nat, elements: seq<seq<Byte>>)
    requires begin + k <= |bytes| && k > 0 && parse(bytes[begin..]) == Some(k)
    requires var rest := Greedy(parse, bytes[begin..]);
             Greedy(parse, bytes) == (elements + rest.0, rest.1)
    ensures var rest := Greedy(parse, bytes[begin + k..]);
            Greedy(parse, bytes) == ((elements + [bytes[begin..][..k]]) + rest.0, rest.1)
  {
    assert bytes[begin..][k..] == bytes[begin + k..];
    var rest := Greedy(parse, bytes[begin + k..]);
    assert elements + ([bytes[begin..][..k]] + rest.0) == (elements + [bytes[begin..][..k]]) + rest.0;
  }

  // ---------------------------------------------------------------- TLV

  function BigEndian(s: seq<Byte>): (n: nat) {
    if s == [] then 0 else 256 * BigEndian(s[..|s| - 1]) + s[|s| - 1]
  }

  /** A VAR-NUMBER at the start of the bytes: its value and its size. */
  function ReadVar(s: seq<Byte>): (r: Option<(nat, nat)>)
    ensures r.Some? ==> 1 <= r.value.1 <= |s|
  {
    if s == [] then None
    else if s[0] < 253 then Some((s[0], 1))
    else
      var n := if s[0] == 253 then 3 else if s[0] == 254 then 5 else 9;
      if |s| < n then None else Some((BigEndian(s[1..n]), n))
  }

  /** TLV-TYPE from 1 to 2^32 - 1, TLV-LENGTH, then that many octets. */
  function TlvSize(s: seq<Byte>): (r: Option<nat>) {
    match ReadVar(s)
    case None => None
    case Some((t, n)) =>
      if t == 0 || t > 0xffff_ffff then None
      else
        match ReadVar(s[n..])
        case None => None
        case Some((length, m)) =>
          if n + m + length <= |s| then Some(n + m + length) else None
  }

  lemma ReadVarStable(s: seq<Byte>, t: seq<Byte>)
    requires ReadVar(s).Some?
    ensures ReadVar(s + t) == ReadVar(s)
  {
    var n := ReadVar(s).value.1;
    assert (s + t)[0] == s[0];
    assert (s + t)[1..n] == s[1..n];
  }

  lemma TlvIsPrefixStable()
    ensures PrefixStable(TlvSize)
  {
    forall s: seq<Byte>, t: seq<Byte>
      ensures StableAt(TlvSize, s, t)
    {
      if TlvSize(s).Some? {
        ReadVarStable(s, t);
        var n := ReadVar(s).value.1;
        assert (s + t)[n..] == s[n..] + t;
        ReadVarStable(s[n..], t);
      }
    }
  }
}
