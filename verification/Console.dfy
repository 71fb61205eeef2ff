/** The input ring that interrupts fill and the shell drains, and the line buffer
    behind it. The consumer can be interrupted between any two memory accesses. */
module Console {
  import opened Editing

  const RING_SIZE: nat := 256
  const LINE_MAX: nat := 128

  function Next(i: nat): nat { (i + 1) % 256 }

  /** How many characters wait between `tail` and `head`. */
  function Waiting(tail: nat, head: nat): nat {
    if head >= tail then head - tail else if tail < 256 then head + 256 - tail else 0
  }

  /** They, in the order in which they came. */
  function Pending(ring: seq<char>, tail: nat, head: nat): (cs: string)
    requires |ring| == 256
    ensures |cs| == Waiting(tail, head)
  {
    seq(Waiting(tail, head), i requires 0 <= i < Waiting(tail, head) => ring[(tail + i) % 256])
  }

  /** The ring is full when all but one slot wait; otherwise a push appends. */
  lemma Pushed(ring: seq<char>, tail: nat, head: nat, c: char)
    requires |ring| == 256 && tail < 256 && head < 256
    ensures Next(head) == tail <==> Waiting(tail, head) == 255
    ensures Waiting(tail, head) <= 255
    ensures Next(head) != tail ==> Pending(ring[head := c], tail, Next(head)) == Pending(ring, tail, head) + [c]
  {
    if Next(head) != tail {
      var p, q := Pending(ring, tail, head), Pending(ring[head := c], tail, Next(head));
      assert |q| == |p| + 1;
      forall i | 0 <= i < |p| ensures q[i] == p[i] {
        assert (tail + i) % 256 != head;
      }
    }
  }

  /** Advancing the tail takes the oldest character off. */
  lemma Popped(ring: seq<char>, tail: nat, head: nat)
    requires |ring| == 256 && tail < 256 && head < 256 && tail != head
    ensures Pending(ring, tail, head) == [ring[tail]] + Pending(ring, Next(tail), head)
  {
    var p, q := Pending(ring, tail, head), Pending(ring, Next(tail), head);
    assert |p| == |q| + 1;
    forall i | 0 < i < |p| ensures p[i] == q[i - 1] {
      NextIndex(tail, i);
    }
  }

  lemma NextIndex(tail: nat, i: nat)
    requires 0 < i
    ensures (tail + i) % 256 == (Next(tail) + (i - 1)) % 256
  {
  }

  lemma QueueEmpty(tail: nat, head: nat)
    requires tail < 256 && head < 256
    ensures Waiting(tail, head) == 0 <==> tail == head
  {
  }

  /** Where the consumer is in `shell_poll`: it has read the tail to compare it,
      found the ring not empty, read the tail to index the ring, fetched the
      character, read the tail to advance it, or advanced it. */
  datatype Consumer = Idle | Comparing(t: nat) | Nonempty | Indexing(t: nat) | Fetched(c: char)
                    | Advancing(c: char, t: nat) | Handling(c: char)

  /** The string that starts a buffer: everything before the first NUL. */
  function CString(b: string): string {
    if b == [] || b[0] == '\0' then [] else [b[0]] + CString(b[1..])
  }

  lemma {:induction false} Terminated(b: string, n: nat)
    requires n < |b| && b[n] == '\0' && forall i | 0 <= i < n :: b[i] != '\0'
    ensures CString(b) == b[..n]
  {
    if n > 0 {
      Terminated(b[1..], n - 1);
      assert b[..n] == [b[0]] + b[1..][..n - 1];
    }
  }

  class Terminal {
    const ring: array<char>
    const lineBuf: array<char>
    var head: nat
    var tail: nat
    var lineLen: nat
    var consumer: Consumer
    /** The characters that pushes accepted, those that the editor has seen, and
        the lines given to `shell_execute`. */
    ghost var accepted: string
    ghost var typed: string
    ghost var executed: seq<string>

    /** The characters past the tail that the editor has not seen yet. */
    ghost function InHand(): string
      reads this`consumer
    {
      if consumer.Handling? then [consumer.c] else []
    }

    ghost function Queue(): string
      requires ring.Length == 256
      reads this`head, this`tail, ring
    {
      Pending(ring[..], tail, head)
    }

    /** What the consumer remembers is still true, whatever was pushed meanwhile. */
    ghost predicate Remembers()
      requires ring.Length == 256 && tail < 256
      reads this`consumer, this`head, this`tail, ring
    {
      match consumer
      case Idle => true
      case Comparing(t) => t == tail
      case Nonempty => tail != head
      case Indexing(t) => t == tail != head
      case Fetched(c) => tail != head && c == ring[tail]
      case Advancing(c, t) => t == tail != head && c == ring[tail]
      case Handling(c) => true
    }

    /** The ring is a queue: everything accepted, in order, is either with the
        editor or still waiting; and the line buffer is what the editor makes of
        what it has seen. */
    ghost predicate Valid()
      reads this, ring, lineBuf
    {
      && ring.Length == 256 && lineBuf.Length == 128 && ring != lineBuf
      && head < 256 && tail < 256 && lineLen <= 127
      && Remembers()
      && accepted == typed + InHand() + Queue()
      && TypedAll(Editor("", []), typed) == Editor(lineBuf[..lineLen], executed)
      && forall i | 0 <= i < lineLen :: Printable(lineBuf[i])
    }

    constructor ()
      ensures Valid() && accepted == "" && executed == [] && consumer == Idle
      ensures fresh(ring) && fresh(lineBuf)
    {
      ring, lineBuf := new char[256](_ => '\0'), new char[128](_ => '\0');
      head, tail, lineLen, consumer := 0, 0, 0, Idle;
      accepted, typed, executed := "", "", [];
    }

    /** `shell_push_char`, from an interrupt at any moment. The character is
        dropped exactly when 255 are waiting. */
    method PushChar(c: char)
      requires Valid()
      modifies this`head, this`accepted, ring
      ensures Valid()
      ensures accepted == if |old(Queue())| == 255 then old(accepted) else old(accepted) + [c]
      ensures Queue() == if |old(Queue())| == 255 then old(Queue()) else old(Queue()) + [c]
      ensures |Queue()| <= 255
    {
      Pushed(ring[..], tail, head, c);
      var next := (head + 1) % RING_SIZE;
      if next == tail {
        return;
      }
      ring[head] := c;
      head := next;
      accepted := accepted + [c];
    }

    /** One memory access of `shell_poll`, or the call of the editor. */
    method ConsumerStep()
      requires Valid()
      modifies this`tail, this`consumer, this`lineLen, this`typed, this`executed, lineBuf
      ensures Valid()
      ensures Queue() == if old(consumer).Advancing? then old(Queue())[1..] else old(Queue())
      ensures typed == old(typed) + if old(consumer).Handling? then [old(consumer).c] else []
      ensures old(consumer).Comparing? ==> (consumer == Nonempty <==> old(Queue()) != "")
    {
      hide TypedAll, Pending, Waiting;
      QueueEmpty(tail, head);
      match consumer {
        case Idle => consumer := Comparing(tail);
        case Comparing(t) => consumer := if t != head then Nonempty else Idle;
        case Nonempty => consumer := Indexing(tail);
        case Indexing(t) => consumer := Fetched(ring[t]);
        case Fetched(c) => consumer := Advancing(c, tail);
        case Advancing(c, t) =>
          Popped(ring[..], tail, head);
          tail := (t + 1) % RING_SIZE;
          consumer := Handling(c);
        case Handling(c) =>
          InputChar(c);
          consumer := Idle;
      }
    }

    /** `shell_input_char` */
    method InputChar(c: char)
      requires Valid() && consumer == Handling(c)
      modifies this`lineLen, this`typed, this`executed, this`consumer, lineBuf
      ensures Valid() && consumer == Idle && typed == old(typed) + [c]
    {
      hide TypedAll, Pending;
      TypedAppend(Editor("", []), typed, c);
      typed, consumer := typed + [c], Idle;
      if c == BACKSPACE {
        if lineLen > 0 {
          lineLen := lineLen - 1;
        }
        return;
      }
      if c == '\n' {
        ghost var text := lineBuf[..lineLen];
        lineBuf[lineLen] := '\0';
        Terminated(lineBuf[..], lineLen);
        lineLen := 0;
        executed := executed + [CString(lineBuf[..])];
        return;
      }
      if c < ' ' || c > '~' {
        return;
      }
      if lineLen < LINE_MAX - 1 {
        lineBuf[lineLen] := c;
        lineLen := lineLen + 1;
      }
    }

    /** Every line given to `shell_execute` is the reference edit of what was
        accepted between two newlines, and no longer than 127 characters. */
    lemma ExecutedLines()
      requires Valid()
      ensures typed <= accepted
      ensures |executed| == |Finished(typed)|
      ensures forall i | 0 <= i < |executed| :: executed[i] == Edited(Finished(typed)[i])
      ensures lineBuf[..lineLen] == Edited(Unfinished(typed))
      ensures forall i | 0 <= i < |executed| :: |executed[i]| <= 127
    {
      hide TypedAll, Pending, Edited, Finished, Unfinished;
      LinesAreEditedPieces(typed);
    }
  }
}
