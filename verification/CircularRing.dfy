/** The growing byte ring of libpurple/circularbuffer.c.

    `Ring` is the value of the buffer's private fields, pointers being offsets from the start of
    the memory (a NULL pointer of a buffer that was never allocated is offset 0 of no memory).
    The functions on it say what each operation leaves behind; module CircularBuffer performs
    the operations on an array and is proved against them.  `Contents` reads the queue off
    `output` and `used` alone: what the input pointer has to be for it to mean anything is
    `Shape`. */
module CircularRing {
  import opened Basics

  newtype byte = x: int | 0 <= x < 256

  // What a freshly obtained piece of memory holds: anything.
  type Junk = nat -> byte

  const DEFAULT_BUF_SIZE: nat := 256

  datatype Ring = Ring(data: seq<byte>, growSize: nat, used: nat, input: nat, output: nat)

  ghost predicate Linear(r: Ring) {
    r.output <= r.input <= |r.data| && r.used == r.input - r.output &&
    (r.output < |r.data| || |r.data| == 0)
  }

  ghost predicate Wrapped(r: Ring) {
    0 < r.input <= r.output < |r.data| && r.used == |r.data| - r.output + r.input
  }

  // Everything was read and `output` wrapped to the start, but nothing ever wraps `input`.
  predicate DrainedAtEnd(r: Ring) {
    0 < |r.data| == r.input && r.output == 0 && r.used == 0
  }

  // The three shapes a buffer can be in.
  ghost predicate Shape(r: Ring) {
    0 < r.growSize && (Linear(r) || Wrapped(r) || DrainedAtEnd(r))
  }

  // Where the i-th queued byte lies: from `output` on, around the end of the memory.
  function Slot(r: Ring, i: nat): nat
    requires i < r.used <= |r.data| && r.output <= |r.data|
  {
    if r.output + i < |r.data| then r.output + i else r.output + i - |r.data|
  }

  // The queue.
  function Contents(r: Ring): (q: seq<byte>)
    requires r.used <= |r.data| && r.output <= |r.data|
  {
    seq(r.used, i requires 0 <= i < r.used => r.data[Slot(r, i)])
  }

  // The memory after memcpy(data + at, src, |src|).
  function Blit(data: seq<byte>, at: nat, src: seq<byte>): (r: seq<byte>)
    requires at + |src| <= |data|
  {
    seq(|data|, i requires 0 <= i < |data| => if at <= i < at + |src| then src[i - at] else data[i])
  }

  // The loop at lines 85-86: add the grow size until `len` bytes are free.
  function GrownLength(buflen: nat, used: nat, growSize: nat, len: nat): (n: nat)
    requires used <= buflen && 0 < growSize
    ensures buflen <= n && len <= n - used
    decreases used + len - buflen
  {
    if buflen - used < len then GrownLength(buflen + growSize, used, growSize, len) else buflen
  }

  // Growing adds a multiple of the grow size, and the least one that leaves `len` bytes free.
  lemma {:induction false} GrownLengthIsLeast(buflen: nat, used: nat, growSize: nat, len: nat) returns (k: nat)
    requires used <= buflen && 0 < growSize
    ensures GrownLength(buflen, used, growSize, len) == buflen + k * growSize
    ensures GrownLength(buflen, used, growSize, len) - used >= len
    ensures forall j: nat :: buflen + j * growSize - used >= len ==> k <= j
    decreases used + len - buflen
  {
    if buflen - used < len {
      var k' := GrownLengthIsLeast(buflen + growSize, used, growSize, len);
      k := k' + 1;
      assert k * growSize == k' * growSize + growSize;
      forall j: nat | buflen + j * growSize - used >= len ensures k <= j {
        assert j != 0;
        assert (j - 1) * growSize == j * growSize - growSize;
        assert (buflen + growSize) + (j - 1) * growSize - used >= len;
      }
    } else {
      k := 0;
    }
  }

  // ----- the operations -----

  // Lines 108-117: the wrapped head of the queue is copied behind the old end, as far as it
  // fits, and what does not fit slides down to the start.
  function Relocate(big: seq<byte>, start: nat, input: nat): (d: seq<byte>)
    requires input <= start <= |big|
    ensures |d| == |big|
    ensures forall i :: input <= i < start ==> d[i] == big[i]
    ensures forall i :: start <= i < start + Min(|big| - start, input) ==> d[i] == big[i - start]
    ensures forall i :: 0 <= i < input - (|big| - start) ==> d[i] == big[i + (|big| - start)]
  {
    var shift := Min(|big| - start, input);
    var moved := Blit(big, start, big[..shift]);
    if shift < input then Blit(moved, 0, moved[shift..input]) else moved
  }

  // Lines 93-118, `big` being the memory that realloc returned.
  function Resize(r: Ring, big: seq<byte>): (g: Ring)
    requires Shape(r) && r.data <= big
    ensures |g.data| == |big|
    ensures g.growSize == r.growSize && g.used == r.used && g.output == r.output
  {
    if r.input < r.output || (r.input == r.output && r.used > 0) then
      var shift := Min(|big| - |r.data|, r.input);
      r.(data := Relocate(big, |r.data|, r.input),
         input := if shift < r.input then r.input - shift else |r.data| + r.input)
    else
      r.(data := big)
  }

  // The memory that realloc returns for `len` more bytes.
  function Realloc(r: Ring, len: nat, junk: Junk): (big: seq<byte>)
    requires Shape(r)
    ensures r.data <= big && len <= |big| - r.used
    ensures |big| == GrownLength(|r.data|, r.used, r.growSize, len)
  {
    r.data + seq(GrownLength(|r.data|, r.used, r.growSize, len) - |r.data|, i requires 0 <= i => junk(i))
  }

  function Grow(r: Ring, len: nat, junk: Junk): (g: Ring)
    requires Shape(r)
  {
    Resize(r, Realloc(r, len, junk))
  }

  predicate MustGrow(r: Ring, len: nat) {
    |r.data| - r.used < len
  }

  function Append(r: Ring, src: seq<byte>, junk: Junk): Ring
    requires Shape(r)
  {
    var g := if MustGrow(r, |src|) then Grow(r, |src|, junk) else r;
    ResizeShape(r, Realloc(r, |src|, junk));
    AppendGrown(g, src)
  }

  // The two copies of append, once the memory has room.
  function AppendGrown(g: Ring, src: seq<byte>): (a: Ring)
    requires g.used + |src| <= |g.data| && g.output <= |g.data| && g.input <= |g.data|
    requires g.input < g.output ==> g.input + |src| <= |g.data|
    ensures |a.data| == |g.data| && a.used == g.used + |src| && a.output == g.output
  {
    var stored := if g.input >= g.output then Min(|src|, |g.data| - g.input) else |src|;
    var first := Blit(g.data, g.input, src[..stored]);
    if stored < |src| then
      g.(data := Blit(first, 0, src[stored..]), input := |src| - stored, used := g.used + |src|)
    else
      g.(data := first, input := g.input + stored, used := g.used + |src|)
  }

  function MaxRead(r: Ring): nat
    requires r.output <= |r.data|
  {
    if r.used == 0 then 0
    else if r.output >= r.input then |r.data| - r.output
    else r.input - r.output
  }

  // Refused (nothing changes) when more than the readable stretch is asked for.
  function MarkRead(r: Ring, len: nat): Ring
    requires Shape(r)
  {
    if MaxRead(r) < len then r
    else
      var output := r.output + len;
      r.(output := if output == |r.data| then 0 else output, used := r.used - len)
  }

  function Reset(r: Ring): Ring {
    r.(input := 0, output := 0)
  }

  // ----- the queue laws -----

  lemma ResizeShape(r: Ring, big: seq<byte>)
    requires Shape(r) && r.data <= big
    ensures Shape(Resize(r, big)) <==> !(DrainedAtEnd(r) && |r.data| < |big|)
    ensures var g := Resize(r, big);
            g.input <= |g.data| && (g.input < g.output ==> g.output - g.input == |big| - r.used)
  {}

  // The byte at queue position i is still there after growing, wherever it was moved to.
  lemma ResizeMoves(r: Ring, big: seq<byte>, i: nat)
    requires Shape(r) && r.data <= big && i < r.used
    ensures var g := Resize(r, big); g.data[Slot(g, i)] == r.data[Slot(r, i)]
  {
    var g, start, at := Resize(r, big), |r.data|, Slot(r, i);
    if Wrapped(r) && at < r.input {
      var extra := |big| - start;
      assert Slot(g, i) == if at < extra then start + at else at - extra;
    } else {
      assert Slot(g, i) == at;
    }
  }

  // Growing never touches the queue, in whichever shape the buffer is.
  lemma GrowKeepsContents(r: Ring, len: nat, junk: Junk)
    requires Shape(r)
    ensures Contents(Grow(r, len, junk)) == Contents(r)
    ensures Shape(Grow(r, len, junk)) <==> !(DrainedAtEnd(r) && MustGrow(r, len))
  {
    var big := Realloc(r, len, junk);
    ResizeShape(r, big);
    forall i | 0 <= i < r.used ensures Contents(Resize(r, big))[i] == Contents(r)[i] {
      ResizeMoves(r, big, i);
    }
  }

  // Append puts exactly `src` behind the queue and stays in one of the three shapes, unless it
  // has to grow a buffer that is drained at its end.
  lemma AppendAddsAtTheTail(r: Ring, src: seq<byte>, junk: Junk)
    requires Shape(r) && !(DrainedAtEnd(r) && MustGrow(r, |src|))
    ensures Shape(Append(r, src, junk))
    ensures Contents(Append(r, src, junk)) == Contents(r) + src
  {
    if MustGrow(r, |src|) {
      GrowKeepsContents(r, |src|, junk);
      AppendWithRoom(Grow(r, |src|, junk), src);
    } else {
      AppendWithRoom(r, src);
    }
  }

  lemma AppendWithRoom(g: Ring, src: seq<byte>)
    requires Shape(g) && g.used + |src| <= |g.data|
    ensures Shape(AppendGrown(g, src))
    ensures Contents(AppendGrown(g, src)) == Contents(g) + src
  {
    AppendShape(g, src);
    var a := AppendGrown(g, src);
    forall i | 0 <= i < a.used ensures Contents(a)[i] == (Contents(g) + src)[i] {
      AppendPlaces(g, src, i);
    }
  }

  lemma AppendShape(g: Ring, src: seq<byte>)
    requires Shape(g) && g.used + |src| <= |g.data|
    ensures Shape(AppendGrown(g, src))
  {}

  lemma AppendPlaces(g: Ring, src: seq<byte>, i: nat)
    requires Shape(g) && g.used + |src| <= |g.data| && i < g.used + |src|
    ensures var a := AppendGrown(g, src);
            a.data[Slot(a, i)] == if i < g.used then g.data[Slot(g, i)] else src[i - g.used]
  {}

  // ----- the one way to lose bytes -----

  // A real growth of a buffer drained at its end leaves the input pointer behind: either the
  // reader is offered more bytes than are buffered, or `src` is read from its middle on.
  lemma DrainedGrowthBreaks(r: Ring, src: seq<byte>, junk: Junk)
    requires Shape(r) && DrainedAtEnd(r) && MustGrow(r, |src|)
    ensures var a := Append(r, src, junk);
            var extra := |a.data| - |r.data|;
            && !Shape(a)
            && Contents(a)[0] == (if |src| <= extra then r.data[0] else src[extra])
            && (|src| <= extra ==> MaxRead(a) > a.used)
  {
    ResizeShape(r, Realloc(r, |src|, junk));
  }

  // Appending n bytes is appending to a queue, whatever the bytes are, exactly when it does not
  // have to grow a buffer drained at its end.
  lemma AppendIsFifoExactlyWhen(r: Ring, n: nat, junk: Junk)
    requires Shape(r)
    ensures (forall src: seq<byte> | |src| == n :: Contents(Append(r, src, junk)) == Contents(r) + src)
            <==> !(DrainedAtEnd(r) && |r.data| < n)
  {
    if DrainedAtEnd(r) && |r.data| < n {
      var src := DrainedGrowthWitness(r, n, junk);
    } else {
      forall src: seq<byte> | |src| == n
        ensures Contents(Append(r, src, junk)) == Contents(r) + src
      {
        AppendAddsAtTheTail(r, src, junk);
      }
    }
  }

  lemma DrainedGrowthWitness(r: Ring, n: nat, junk: Junk) returns (src: seq<byte>)
    requires Shape(r) && DrainedAtEnd(r) && |r.data| < n
    ensures |src| == n && Contents(Append(r, src, junk)) != Contents(r) + src
  {
    var first: byte := if r.data[0] == 0 then 1 else 0;
    src := [first] + seq(n - 1, _ => r.data[0]);
    DrainedGrowthBreaks(r, src, junk);
    assert (Contents(r) + src)[0] == first;
    assert Contents(Append(r, src, junk))[0] == r.data[0];
  }

  function New(growSize: nat): Ring {
    Ring([], if growSize == 0 then DEFAULT_BUF_SIZE else growSize, 0, 0, 0)
  }

  // A new buffer of grow size g: write g bytes, read them, write g + 1 more.  The byte that is
  // read next is the last one written.
  lemma DrainedGrowthExample(g: nat, a: seq<byte>, b: seq<byte>, r1: Ring, r2: Ring, junk: Junk)
    requires |a| == g > 0 && |b| == g + 1
    requires r1 == Append(New(g), a, junk)
    requires Shape(r1) && r2 == MarkRead(r1, g)
    ensures DrainedAtEnd(r2) && Shape(r2) && Contents(Append(r2, b, junk))[0] == b[g]
  {
    assert GrownLength(0, 0, g, g) == GrownLength(g, 0, g, g) == g;
    assert r1.used == r1.input == |r1.data| == g;
    assert GrownLength(g, 0, g, g + 1) == GrownLength(g + g, 0, g, g + 1) == g + g;
    DrainedGrowthBreaks(r2, b, junk);
  }

  // ----- reading -----

  // What may be read at once is positive exactly when something is queued, lies in one piece
  // from the output pointer on, and is a prefix of the queue.
  lemma MaxReadIsAPrefix(r: Ring)
    requires Shape(r)
    ensures MaxRead(r) <= r.used && (MaxRead(r) > 0 <==> r.used > 0)
    ensures r.output + MaxRead(r) <= |r.data|
    ensures r.data[r.output..r.output + MaxRead(r)] == Contents(r)[..MaxRead(r)]
  {}

  lemma MarkReadDrops(r: Ring, len: nat)
    requires Shape(r)
    ensures Shape(MarkRead(r, len))
    ensures Contents(MarkRead(r, len)) == if len <= MaxRead(r) then Contents(r)[len..] else Contents(r)
  {
    MarkReadShape(r, len);
    var m := MarkRead(r, len);
    if len <= MaxRead(r) {
      forall i | 0 <= i < m.used ensures Contents(m)[i] == Contents(r)[len..][i] {
        assert Slot(m, i) == Slot(r, len + i);
      }
    }
  }

  lemma MarkReadShape(r: Ring, len: nat)
    requires Shape(r)
    ensures Shape(MarkRead(r, len))
    ensures MarkRead(r, len).used == if len <= MaxRead(r) then r.used - len else r.used
  {}

  // Reading all that may be read, twice, drains any buffer.
  lemma TwoReadsDrain(r: Ring)
    requires Shape(r)
    ensures var r1 := MarkRead(r, MaxRead(r));
            Shape(r1) && MarkRead(r1, MaxRead(r1)).used == 0
  {
    MarkReadShape(r, MaxRead(r));
  }

  // reset() moves the pointers but forgets the count: it is sound on empty buffers only.
  lemma ResetNeedsEmpty(r: Ring)
    requires Shape(r)
    ensures Shape(Reset(r)) <==> r.used == 0
  {}

  // One byte queued in a buffer of three: after the reset the reader is offered three.
  lemma ResetExample()
    ensures var r := Ring([7, 0, 0], 3, 1, 1, 0);
            Shape(r) && Contents(r) == [7] && MaxRead(r) == 1 && !Shape(Reset(r)) && MaxRead(Reset(r)) == 3
  {
    var r := Ring([7, 0, 0], 3, 1, 1, 0);
    assert Linear(r) && Contents(r)[0] == 7;
  }

  // ----- whole runs -----

  datatype Op = Put(src: seq<byte>, junk: Junk) | Take(len: nat)

  datatype Trace = Trace(ring: Ring, read: seq<byte>) | Broken

  // One call, with the bytes the reader takes; Broken when a drained buffer really grows.
  function Step(r: Ring, op: Op): (t: Trace)
    requires Shape(r)
    ensures t.Trace? ==> Shape(t.ring)
  {
    match op
    case Put(src, junk) =>
      if DrainedAtEnd(r) && MustGrow(r, |src|) then Broken
      else
        AppendAddsAtTheTail(r, src, junk);
        Trace(Append(r, src, junk), [])
    case Take(len) =>
      MarkReadShape(r, len);
      MaxReadIsAPrefix(r);
      Trace(MarkRead(r, len), if len <= MaxRead(r) then r.data[r.output..r.output + len] else [])
  }

  function Run(r: Ring, ops: seq<Op>): (t: Trace)
    requires Shape(r)
    ensures t.Trace? ==> Shape(t.ring)
    decreases |ops|
  {
    if ops == [] then Trace(r, [])
    else
      var first := Step(r, ops[0]);
      if first.Broken? then Broken
      else
        var rest := Run(first.ring, ops[1..]);
        if rest.Broken? then Broken else Trace(rest.ring, first.read + rest.read)
  }

  function Source(op: Op): seq<byte> {
    if op.Put? then op.src else []
  }

  function Written(ops: seq<Op>): seq<byte> {
    if ops == [] then [] else Source(ops[0]) + Written(ops[1..])
  }

  lemma TakeIsFifo(r: Ring, len: nat)
    requires Shape(r) && len <= MaxRead(r)
    ensures r.output + len <= |r.data| && Shape(MarkRead(r, len))
    ensures r.data[r.output..r.output + len] + Contents(MarkRead(r, len)) == Contents(r)
  {
    WhatIsTaken(r, len);
    WhatIsLeft(r, len);
    TakenAndLeft(r.data[r.output..r.output + len], Contents(r), len, Contents(MarkRead(r, len)));
  }

  lemma WhatIsTaken(r: Ring, len: nat)
    requires Shape(r) && len <= MaxRead(r)
    ensures r.output + len <= |r.data| && len <= |Contents(r)|
    ensures r.data[r.output..r.output + len] == Contents(r)[..len]
  {
    MaxReadIsAPrefix(r);
    assert r.data[r.output..r.output + len] == r.data[r.output..r.output + MaxRead(r)][..len];
  }

  lemma WhatIsLeft(r: Ring, len: nat)
    requires Shape(r) && len <= MaxRead(r)
    ensures Shape(MarkRead(r, len)) && len <= |Contents(r)|
    ensures Contents(MarkRead(r, len)) == Contents(r)[len..]
  {
    MarkReadDrops(r, len);
  }

  lemma TakenAndLeft(taken: seq<byte>, q: seq<byte>, k: nat, left: seq<byte>)
    requires k <= |q| && taken == q[..k] && left == q[k..]
    ensures taken + left == q
  {}

  lemma StepIsFifo(r: Ring, op: Op)
    requires Shape(r) && Step(r, op).Trace?
    ensures var t := Step(r, op); t.read + Contents(t.ring) == Contents(r) + Source(op)
  {
    match op
    case Put(src, junk) =>
      AppendAddsAtTheTail(r, src, junk);
      assert Step(r, op).read == [];
    case Take(len) =>
      if len <= MaxRead(r) {
        TakeIsFifo(r, len);
      }
  }

  // Over any run: what was read, followed by what is still queued, is what was queued at first
  // followed by everything that was written.
  lemma {:induction false} RunIsFifo(r: Ring, ops: seq<Op>)
    requires Shape(r) && Run(r, ops).Trace?
    ensures var t := Run(r, ops); t.read + Contents(t.ring) == Contents(r) + Written(ops)
    decreases |ops|
  {
    if ops != [] {
      var first := Step(r, ops[0]);
      var rest := Run(first.ring, ops[1..]);
      StepIsFifo(r, ops[0]);
      RunIsFifo(first.ring, ops[1..]);
      Regroup(first.read, rest.read, Contents(rest.ring), Contents(first.ring), Written(ops[1..]));
      Associates(Contents(r), Source(ops[0]), Written(ops[1..]));
    }
  }

  lemma Regroup(a: seq<byte>, b: seq<byte>, c: seq<byte>, d: seq<byte>, e: seq<byte>)
    requires b + c == d + e
    ensures a + b + c == (a + d) + e
  {
    assert a + b + c == a + (b + c) == a + (d + e);
  }
}
