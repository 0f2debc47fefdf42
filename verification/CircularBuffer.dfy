/** The buffer object of libpurple/circularbuffer.c: an array that is reallocated and copied into.
    Every method is proved to do to the fields what the function of module CircularRing says. */
module CircularBuffer {
  import opened Basics
  import opened CircularRing

  class PurpleCircularBuffer {
    var buffer: array<byte>
    var growsize: nat
    var buflen: nat
    var bufused: nat
    var input: nat
    var output: nat

    ghost function State(): Ring
      reads this, buffer
    {
      Ring(buffer[..], growsize, bufused, input, output)
    }

    ghost predicate Valid()
      reads this, buffer
    {
      buffer.Length == buflen && Shape(State())
    }

    ghost function Queue(): seq<byte>
      reads this, buffer
      requires Valid()
    {
      Contents(State())
    }

    constructor (growSize: nat)
      ensures Valid() && fresh(buffer)
      ensures State() == New(growSize) && Queue() == []
      ensures growsize == if growSize == 0 then 256 else growSize
    {
      buffer := new byte[0];
      growsize := if growSize == 0 then DEFAULT_BUF_SIZE else growSize;
      buflen, bufused, input, output := 0, 0, 0, 0;
    }

    // memcpy, or memmove, into the buffer's memory.
    method CopyIn(at: nat, src: seq<byte>)
      requires at + |src| <= buffer.Length
      modifies buffer
      ensures buffer[..] == Blit(old(buffer[..]), at, src)
    {
      forall i | 0 <= i < |src| {
        buffer[at + i] := src[i];
      }
    }

    // g_realloc: the old bytes, then whatever the memory held before.
    method Reallocate(start: nat, ghost len: nat) returns (ghost junk: Junk)
      requires buffer.Length == start <= buflen
      requires var r := Ring(buffer[..], growsize, bufused, input, output);
               Shape(r) && buflen == GrownLength(start, bufused, growsize, len)
      modifies `buffer
      ensures fresh(buffer) && buffer.Length == buflen
      ensures buffer[..] == Realloc(old(State()), len, junk)
    {
      var memory := new byte[buflen];
      forall i | 0 <= i < start {
        memory[i] := buffer[i];
      }
      ghost var s := memory[..];
      junk := (i: nat) => if start + i < |s| then s[start + i] else 0;
      buffer := memory;
    }

    method Grow(len: nat) returns (ghost junk: Junk)
      requires Valid()
      modifies this
      ensures fresh(buffer) && buffer.Length == buflen
      ensures State() == CircularRing.Grow(old(State()), len, junk)
      ensures Valid() <==> !(old(DrainedAtEnd(State())) && old(MustGrow(State(), len)))
      ensures Contents(State()) == old(Queue())
    {
      ghost var before := State();
      var start := buflen;
      while buflen - bufused < len
        invariant State() == before && buffer == old(buffer) && buffer.Length == start <= buflen
        invariant GrownLength(buflen, bufused, growsize, len) == GrownLength(start, bufused, growsize, len)
        decreases bufused + len - buflen
      {
        buflen := buflen + growsize;
      }
      junk := Reallocate(start, len);
      Unwrap(start, buffer[..], before);
      GrowKeepsContents(before, len, junk);
    }

    // The wrapped head of the queue moves behind the old end of the memory.
    method Unwrap(start: nat, ghost big: seq<byte>, ghost before: Ring)
      requires Shape(before) && before == State().(data := before.data)
      requires |before.data| == start && before.data <= big
      requires buffer.Length == buflen && buffer[..] == big
      modifies this`input, buffer
      ensures State() == Resize(before, big)
    {
      if input < output || (input == output && bufused > 0) {
        var in_offset := input;
        var shift := Min(buflen - start, in_offset);
        CopyIn(start, buffer[..shift]);
        if shift < in_offset {
          CopyIn(0, buffer[shift..in_offset]);
          input := in_offset - shift;
        } else {
          input := start + in_offset;
        }
      }
    }

    // Exact in every case: what it leaves is a queue again unless a drained buffer really grew.
    method Append(src: seq<byte>) returns (ghost junk: Junk)
      requires Valid()
      modifies this, buffer
      ensures buffer == old(buffer) || fresh(buffer)
      ensures State() == CircularRing.Append(old(State()), src, junk)
      ensures !(old(DrainedAtEnd(State())) && old(MustGrow(State(), |src|)))
              ==> Valid() && Queue() == old(Queue()) + src
    {
      ghost var before := State();
      junk := MakeRoomAndStore(src);
      if !(DrainedAtEnd(before) && MustGrow(before, |src|)) {
        AppendAddsAtTheTail(before, src, junk);
      }
    }

    method MakeRoomAndStore(src: seq<byte>) returns (ghost junk: Junk)
      requires Valid()
      modifies this, buffer
      ensures (buffer == old(buffer) || fresh(buffer)) && buffer.Length == buflen
      ensures State() == CircularRing.Append(old(State()), src, junk)
    {
      ghost var before := State();
      junk := i => 0;
      ResizeShape(before, Realloc(before, |src|, junk));
      if buflen - bufused < |src| {
        junk := Grow(|src|);
        ResizeShape(before, Realloc(before, |src|, junk));
      }
      Store(src);
    }

    // The one or two copies of append.
    method Store(src: seq<byte>)
      requires buffer.Length == buflen && bufused + |src| <= buflen && output <= buflen && input <= buflen
      requires input < output ==> input + |src| <= buflen
      modifies this`input, this`bufused, buffer
      ensures State() == AppendGrown(old(State()), src) && buffer.Length == buflen
    {
      var stored := if input >= output then Min(|src|, buflen - input) else |src|;
      CopyIn(input, src[..stored]);
      if stored < |src| {
        CopyIn(0, src[stored..]);
        input := |src| - stored;
      } else {
        input := input + stored;
      }
      bufused := bufused + |src|;
    }

    // How many bytes lie at the output pointer: a prefix of the queue, empty only if the queue is.
    method GetMaxRead() returns (n: nat)
      requires Valid()
      ensures n <= |Queue()| && (n == 0 <==> Queue() == [])
      ensures output + n <= buffer.Length && buffer[output..output + n] == Queue()[..n]
      ensures n == MaxRead(State())
    {
      MaxReadIsAPrefix(State());
      if bufused == 0 {
        n := 0;
      } else if output >= input {
        n := buflen - output;
      } else {
        n := input - output;
      }
    }

    // Refused above the readable stretch, else that prefix of the queue is dropped.
    method MarkRead(len: nat) returns (ok: bool)
      requires Valid()
      modifies this`output, this`bufused
      ensures Valid() && State() == CircularRing.MarkRead(old(State()), len)
      ensures ok <==> len <= old(MaxRead(State()))
      ensures Queue() == if ok then old(Queue())[len..] else old(Queue())
    {
      MarkReadDrops(State(), len);
      ok := MoveOutput(len);
    }

    method MoveOutput(len: nat) returns (ok: bool)
      requires Valid()
      modifies this`output, this`bufused
      ensures State() == CircularRing.MarkRead(old(State()), len)
      ensures ok <==> len <= old(MaxRead(State()))
    {
      var max := GetMaxRead();
      if max < len {
        return false;
      }
      output := output + len;
      bufused := bufused - len;
      if output == buflen {
        output := 0;
      }
      return true;
    }

    // Only the pointers move: sound on an empty buffer, and on no other.
    method Reset()
      requires Valid()
      modifies this`input, this`output
      ensures State() == CircularRing.Reset(old(State()))
      ensures Valid() <==> old(Queue()) == []
    {
      ResetNeedsEmpty(State());
      input := 0;
      output := 0;
    }
  }
}
