/** The keyboard's ring buffer: its interleavings with the interrupt handler, and the line
    editing of sys_read and kgets on top of it. */
module Keyboard {
  import Terminal

  const BUFFER_SIZE := 10000
  const BACKSPACE := Terminal.BACKSPACE
  const NUL := '\0'
  const STDIN := 0
  const STDIN_NONBLOCKING := 3

  // ---- the ring as a sequence ----

  function Slot(start: nat, i: nat): (r: nat)
    ensures r < BUFFER_SIZE
  {
    (start + i) % BUFFER_SIZE
  }

  // The n characters from position start on, around the end of the buffer.
  function Ring(buf: seq<char>, start: nat, n: nat): (r: seq<char>)
    requires |buf| == BUFFER_SIZE
    ensures |r| == n
    ensures forall i: nat :: i < n ==> r[i] == buf[Slot(start, i)]
  {
    if n == 0 then [] else Ring(buf, start, n - 1) + [buf[Slot(start, n - 1)]]
  }

  lemma SlotsApart(start: nat, i: nat, j: nat)
    requires i < j < i + BUFFER_SIZE
    ensures Slot(start, i) != Slot(start, j)
  {
  }

  lemma SlotShift(start: nat, i: nat)
    ensures Slot(Slot(start, 1), i) == Slot(start, i + 1)
  {
  }

  lemma RingTail(buf: seq<char>, start: nat, n: nat)
    requires |buf| == BUFFER_SIZE && n > 0
    ensures Ring(buf, Slot(start, 1), n - 1) == Ring(buf, start, n)[1..]
    ensures start < BUFFER_SIZE ==> Ring(buf, start, n)[0] == buf[start]
  {
    forall i: nat | i < n - 1 ensures Ring(buf, Slot(start, 1), n - 1)[i] == Ring(buf, start, n)[1..][i] {
      SlotShift(start, i);
    }
  }

  // Writing a slot outside the ring does not show.
  lemma RingFrame(buf: seq<char>, start: nat, n: nat, j: nat, c: char)
    requires |buf| == BUFFER_SIZE && n <= j < BUFFER_SIZE
    ensures Ring(buf[Slot(start, j) := c], start, n) == Ring(buf, start, n)
  {
    forall i: nat | i < n ensures Ring(buf[Slot(start, j) := c], start, n)[i] == Ring(buf, start, n)[i] {
      SlotsApart(start, i, j);
    }
  }

  lemma RingAppend(buf: seq<char>, start: nat, n: nat, c: char)
    requires |buf| == BUFFER_SIZE && n < BUFFER_SIZE
    ensures Ring(buf[Slot(start, n) := c], start, n + 1) == Ring(buf, start, n) + [c]
  {
    RingFrame(buf, start, n, n, c);
  }

  // ---- interleavings ----

  /** Where kgetc stands between two of its statements. */
  datatype Pc = Idle | Waiting | Fetching | Advancing(c: char) | Counting(c: char)

  datatype Machine = Machine(buf: seq<char>, start: nat, count: nat, pc: Pc)

  /** Press is the interrupt handler running buffer_put; Call starts kgetc; Go lets kgetc
      execute its next statement. */
  datatype Event = Press(c: char) | Call(blocking: bool) | Go

  predicate Enabled(m: Machine, e: Event) {
    match e
    case Press(_) => true
    case Call(_) => m.pc.Idle?
    case Go => !m.pc.Idle?
  }

  ghost predicate Bounds(m: Machine) {
    && |m.buf| == BUFFER_SIZE && m.start < BUFFER_SIZE && m.count <= BUFFER_SIZE
    && (m.pc.Fetching? || m.pc.Advancing? || m.pc.Counting? ==> m.count > 0)
  }

  // The next state, and the character kgetc returns if this event completes it.
  function Next(m: Machine, e: Event): (Machine, seq<char>)
    requires Bounds(m) && Enabled(m, e)
  {
    match e
    case Press(c) =>
      if m.count != BUFFER_SIZE
      then (m.(buf := m.buf[Slot(m.start, m.count) := c], count := m.count + 1), []) else (m, [])
    case Call(blocking) =>
      if m.count == 0 && !blocking then (m, [NUL]) else (m.(pc := Waiting), [])
    case Go =>
      match m.pc
      case Waiting => (if m.count == 0 then m else m.(pc := Fetching), [])
      case Fetching => (m.(pc := Advancing(m.buf[m.start])), [])
      case Advancing(c) => (m.(start := Slot(m.start, 1), pc := Counting(c)), [])
      case Counting(c) => (m.(count := m.count - 1, pc := Idle), [c])
      case Idle => (m, [])
  }

  /** The indices stay in range in every interleaving. */
  lemma StepBounds(m: Machine, e: Event)
    requires Bounds(m) && Enabled(m, e)
    ensures Bounds(Next(m, e).0)
  {
  }

  // q is the queue a client should see: between the last two statements of kgetc the
  // character in flight still counts as its head.
  ghost predicate IsQueue(m: Machine, q: seq<char>)
    requires Bounds(m)
  {
    && |q| == m.count
    && match m.pc
       case Counting(c) => q[0] == c && q[1..] == Ring(m.buf, m.start, m.count - 1)
       case Advancing(c) => q == Ring(m.buf, m.start, m.count) && q[0] == c
       case _ => q == Ring(m.buf, m.start, m.count)
  }

  // A key press that is stored between the update of start and the update of count.
  predicate BadPress(m: Machine, e: Event) {
    e.Press? && m.pc.Counting? && m.count != BUFFER_SIZE
  }

  // The slot such a press should have filled, and skips.
  function Skipped(m: Machine): char
    requires |m.buf| == BUFFER_SIZE && m.count > 0
  {
    m.buf[Slot(m.start, m.count - 1)]
  }

  // The character an accepted press adds to the queue.
  function Stored(m: Machine, e: Event): char
    requires Bounds(m) && e.Press?
  {
    if BadPress(m, e) then Skipped(m) else e.c
  }

  // The queue under the same event: a bounded FIFO queue but for the character of a bad press.
  function OnQueue(m: Machine, q: seq<char>, e: Event): seq<char>
    requires Bounds(m)
  {
    match e
    case Press(c) => if |q| < BUFFER_SIZE then q + [Stored(m, e)] else q
    case Go => if m.pc.Counting? && q != [] then q[1..] else q
    case Call(_) => q
  }

  /** Every step, in every interleaving, is a step of that queue: a press stored between the
      update of start and that of count goes one slot too far, and what the queue gains is
      whatever the skipped slot held. */
  lemma StepRefines(m: Machine, q: seq<char>, e: Event)
    requires Bounds(m) && IsQueue(m, q) && Enabled(m, e)
    ensures var (n, out) := Next(m, e);
      && Bounds(n) && IsQueue(n, OnQueue(m, q, e))
      && (m.pc.Counting? && e.Go? ==> out == [q[0]])
  {
    hide Slot;
    match e {
      case Press(c) => PressRefines(m, q, c);
      case Call(_) =>
      case Go => if m.count > 0 { RingTail(m.buf, m.start, m.count); }
    }
  }

  lemma PressRefines(m: Machine, q: seq<char>, c: char)
    requires Bounds(m) && IsQueue(m, q)
    ensures var n := Next(m, Press(c)).0;
      Bounds(n) && IsQueue(n, OnQueue(m, q, Press(c)))
  {
    hide Slot;
    if m.count != BUFFER_SIZE {
      RingAppend(m.buf, m.start, m.count, c);
      if m.pc.Counting? {
        var n := Next(m, Press(c)).0;
        RingFrame(m.buf, m.start, m.count, m.count, c);
        assert Ring(n.buf, n.start, m.count) == Ring(n.buf, n.start, m.count - 1) + [Skipped(m)];
        RingFrame(m.buf, m.start, m.count - 1, m.count, c);
        assert (q + [Skipped(m)])[1..] == q[1..] + [Skipped(m)];
      }
    }
  }

  // ---- runs ----

  predicate Runs(m: Machine, es: seq<Event>)
    requires Bounds(m)
    decreases es
  {
    es == [] || (Enabled(m, es[0]) && (StepBounds(m, es[0]); Runs(Next(m, es[0]).0, es[1..])))
  }

  function RunTo(m: Machine, es: seq<Event>): (n: Machine)
    requires Bounds(m) && Runs(m, es)
    ensures Bounds(n)
    decreases es
  {
    if es == [] then m else StepBounds(m, es[0]); RunTo(Next(m, es[0]).0, es[1..])
  }

  // The characters one event lets in, those it adds to the queue, and those it lets out.
  function In(m: Machine, e: Event): seq<char> {
    if e.Press? && m.count != BUFFER_SIZE then [e.c] else []
  }

  function Added(m: Machine, e: Event): seq<char>
    requires Bounds(m)
  {
    if e.Press? && m.count != BUFFER_SIZE then [Stored(m, e)] else []
  }

  function Out(m: Machine, e: Event): seq<char> {
    if e.Go? && m.pc.Counting? then [m.pc.c] else []
  }

  // The characters pressed while there was room, those the queue gained, and those taken
  // from the buffer, in order.
  function Accepted(m: Machine, es: seq<Event>): seq<char>
    requires Bounds(m) && Runs(m, es)
    decreases es
  {
    if es == [] then [] else StepBounds(m, es[0]); In(m, es[0]) + Accepted(Next(m, es[0]).0, es[1..])
  }

  function Received(m: Machine, es: seq<Event>): seq<char>
    requires Bounds(m) && Runs(m, es)
    decreases es
  {
    if es == [] then [] else StepBounds(m, es[0]); Added(m, es[0]) + Received(Next(m, es[0]).0, es[1..])
  }

  function Returned(m: Machine, es: seq<Event>): seq<char>
    requires Bounds(m) && Runs(m, es)
    decreases es
  {
    if es == [] then [] else StepBounds(m, es[0]); Out(m, es[0]) + Returned(Next(m, es[0]).0, es[1..])
  }

  // Every bad press finds its own character in the slot it skips.
  predicate Harmless(m: Machine, es: seq<Event>)
    requires Bounds(m) && Runs(m, es)
    decreases es
  {
    es == [] ||
    (StepBounds(m, es[0]);
     (BadPress(m, es[0]) ==> Skipped(m) == es[0].c) && Harmless(Next(m, es[0]).0, es[1..]))
  }

  /** Every interleaving, bad presses and all: what was in the queue followed by what it received
      is what was returned followed by what is left. */
  lemma {:induction false} RunsAsQueue(m: Machine, q: seq<char>, es: seq<Event>) returns (left: seq<char>)
    requires Bounds(m) && IsQueue(m, q) && Runs(m, es)
    ensures IsQueue(RunTo(m, es), left)
    ensures q + Received(m, es) == Returned(m, es) + left
    decreases es
  {
    hide Bounds, IsQueue, BadPress, OnQueue, Next, Added, Out;
    if es == [] {
      left := q;
    } else {
      var e := es[0];
      StepRefines(m, q, e);
      var n := Next(m, e).0;
      var p := OnQueue(m, q, e);
      left := RunsAsQueue(n, p, es[1..]);
      FifoStep(m, q, e);
      Queued(q, Added(m, e), Received(n, es[1..]), Out(m, e), Returned(n, es[1..]), left, p);
    }
  }

  lemma FifoStep(m: Machine, q: seq<char>, e: Event)
    requires Bounds(m) && IsQueue(m, q)
    ensures q + Added(m, e) == Out(m, e) + OnQueue(m, q, e)
  {
    hide Ring, Slot;
  }

  // From q with i added to p with o taken off the front.
  lemma Queued(q: seq<char>, i: seq<char>, a: seq<char>, o: seq<char>, r: seq<char>, left: seq<char>, p: seq<char>)
    requires p + a == r + left && q + i == o + p
    ensures q + (i + a) == (o + r) + left
  {
    assert q + (i + a) == (q + i) + a;
    assert (o + p) + a == o + (p + a);
    assert o + (r + left) == (o + r) + left;
  }

  lemma {:induction false} ReceivedIs(m: Machine, es: seq<Event>)
    requires Bounds(m) && Runs(m, es)
    ensures |Received(m, es)| == |Accepted(m, es)|
    ensures Received(m, es) == Accepted(m, es) <==> Harmless(m, es)
    decreases es
  {
    hide Bounds, BadPress, Next, Skipped, Stored, In, Added;
    if es != [] {
      StepBounds(m, es[0]);
      var n := Next(m, es[0]).0;
      ReceivedIs(n, es[1..]);
      AddedIs(m, es[0]);
      SameParts(Added(m, es[0]), In(m, es[0]), Received(n, es[1..]), Accepted(n, es[1..]));
    }
  }

  lemma AddedIs(m: Machine, e: Event)
    requires Bounds(m) && Enabled(m, e)
    ensures |Added(m, e)| == |In(m, e)|
    ensures Added(m, e) == In(m, e) <==> (BadPress(m, e) ==> Skipped(m) == e.c)
  {
    if e.Press? && m.count != BUFFER_SIZE {
      assert [Stored(m, e)][0] == Stored(m, e) && [e.c][0] == e.c;
    }
  }

  lemma SameParts(a: seq<char>, b: seq<char>, c: seq<char>, d: seq<char>)
    requires |a| == |b|
    ensures a + c == b + d <==> a == b && c == d
  {
    if a + c == b + d {
      assert a == (a + c)[..|a|] && b == (b + d)[..|b|];
      assert c == (a + c)[|a|..] && d == (b + d)[|b|..];
    }
  }

  lemma QueueUnique(m: Machine, p: seq<char>, q: seq<char>)
    requires Bounds(m) && IsQueue(m, p) && IsQueue(m, q)
    ensures p == q
  {
    if m.pc.Counting? {
      assert p == [p[0]] + p[1..] && q == [q[0]] + q[1..];
    }
  }

  /** First in, first out: a run delivers, in order, the characters pressed while there was room
      if and only if every press that comes between the update of start and that of count finds
      its own character in the slot it skips. */
  lemma FirstInFirstOut(m: Machine, q: seq<char>, es: seq<Event>)
    requires Bounds(m) && IsQueue(m, q) && Runs(m, es)
    ensures (exists left :: IsQueue(RunTo(m, es), left) && q + Accepted(m, es) == Returned(m, es) + left)
      <==> Harmless(m, es)
  {
    hide Bounds, IsQueue, Received, Accepted, Returned, Harmless, RunTo;
    var left := RunsAsQueue(m, q, es);
    ReceivedIs(m, es);
    if p :| IsQueue(RunTo(m, es), p) && q + Accepted(m, es) == Returned(m, es) + p {
      QueueUnique(RunTo(m, es), p, left);
      SameParts(q, q, Accepted(m, es), Received(m, es));
    }
  }

  // The states of a run that loses a key.
  function LostState(k: nat): Machine {
    var empty := seq(BUFFER_SIZE, i => NUL);
    var one := empty[0 := 'a'];
    match k
    case 0 => Machine(empty, 0, 0, Idle)
    case 1 => Machine(one, 0, 1, Idle)
    case 2 => Machine(one, 0, 1, Waiting)
    case 3 => Machine(one, 0, 1, Fetching)
    case 4 => Machine(one, 0, 1, Advancing('a'))
    case 5 => Machine(one, 1, 1, Counting('a'))
    case 6 => Machine(one[2 := 'b'], 1, 2, Counting('a'))
    case _ => Machine(one[2 := 'b'], 1, 1, Idle)
  }

  const LOST := [Press('a'), Call(true), Go, Go, Go, Press('b'), Go]

  lemma LostStep(k: nat)
    requires k < 7
    ensures var m := LostState(k);
      && Bounds(m) && Bounds(LostState(k + 1)) && Enabled(m, LOST[k]) && Next(m, LOST[k]).0 == LostState(k + 1)
  {
  }

  /** The failing interleaving, at one input: on an empty buffer 'a' is pressed, kgetc takes it, and
      'b' is pressed before the count goes down.  The next character read is not 'b'. */
  lemma LostKey(m: Machine)
    requires m == LostState(0)
    ensures Bounds(m) && IsQueue(m, []) && Runs(m, LOST) && !Harmless(m, LOST)
    ensures Returned(m, LOST) == ['a'] && IsQueue(RunTo(m, LOST), [NUL])
  {
    LostFrom(0);
    assert LOST[0..] == LOST;
    assert Ring(LostState(7).buf, 1, 1) == [NUL];
  }

  lemma {:induction false} LostFrom(k: nat)
    requires k <= 7
    ensures var m := LostState(k);
      && Bounds(m) && Runs(m, LOST[k..]) && RunTo(m, LOST[k..]) == LostState(7)
      && (k <= 5 ==> !Harmless(m, LOST[k..]))
      && Returned(m, LOST[k..]) == if k < 7 then ['a'] else []
    decreases 7 - k
  {
    hide LostState, Next, Bounds, BadPress, Skipped;
    LostBad();
    if k == 7 {
      LostStep(6);
      assert LOST[7..] == [];
    } else {
      LostFrom(k + 1);
      LostStep(k);
      LostOut(k);
      Step(LostState(k), LostState(k + 1), LOST, k);
    }
  }

  lemma LostBad()
    ensures Bounds(LostState(5)) && BadPress(LostState(5), LOST[5]) && Skipped(LostState(5)) == NUL
  {
  }

  lemma LostOut(k: nat)
    requires k < 7
    ensures Out(LostState(k), LOST[k]) == if k == 6 then ['a'] else []
  {
  }

  // One step of a run, from the k-th event on.
  lemma Step(m: Machine, n: Machine, es: seq<Event>, k: nat)
    requires k < |es| && Bounds(m) && Enabled(m, es[k]) && Next(m, es[k]).0 == n && Bounds(n) && Runs(n, es[k + 1..])
    ensures Runs(m, es[k..]) && RunTo(m, es[k..]) == RunTo(n, es[k + 1..])
    ensures Harmless(m, es[k..]) <==> (BadPress(m, es[k]) ==> Skipped(m) == es[k].c) && Harmless(n, es[k + 1..])
    ensures Returned(m, es[k..]) == Out(m, es[k]) + Returned(n, es[k + 1..])
  {
    assert es[k..][0] == es[k] && es[k..][1..] == es[k + 1..];
  }

  // ---- line editing, on sequences ----

  function Zeros(n: nat): seq<char> {
    seq(n, i => NUL)
  }

  function Without(out: seq<char>): seq<char> {
    if out == [] then [] else out[..|out| - 1]
  }

  /** The loop of sys_read after the first character, from what is in the output so far:
      append, or take the last one back; an empty queue supplies zeros. */
  function ReadOn(out: seq<char>, q: seq<char>, size: nat): (seq<char>, seq<char>)
    decreases 2 * |q| + if |out| < size then size - |out| else 0
  {
    if |out| >= size then (out, q)
    else if q == [] then ReadOn(out + [NUL], q, size)
    else if q[0] == BACKSPACE then ReadOn(Without(out), q[1..], size)
    else ReadOn(out + [q[0]], q[1..], size)
  }

  function Read(q: seq<char>, size: nat): (seq<char>, seq<char>) {
    if q == [] then ReadOn([NUL], q, size) else ReadOn([q[0]], q[1..], size)
  }

  // How many characters sys_read stores and reports.
  function Length(size: nat): nat {
    if size == 0 then 1 else size
  }

  /** For size >= 1 sys_read returns exactly size; asked for nothing it still stores and
      reports one character. */
  lemma ReadLength(q: seq<char>, size: nat)
    ensures |Read(q, size).0| == Length(size)
  {
    if q == [] { ReadOnLength([NUL], q, size); } else { ReadOnLength([q[0]], q[1..], size); }
  }

  lemma {:induction false} ReadOnLength(out: seq<char>, q: seq<char>, size: nat)
    ensures |ReadOn(out, q, size).0| == if |out| <= size then size else |out|
    decreases 2 * |q| + if |out| < size then size - |out| else 0
  {
    if |out| < size {
      if q == [] { ReadOnLength(out + [NUL], q, size); }
      else if q[0] == BACKSPACE { ReadOnLength(Without(out), q[1..], size); }
      else { ReadOnLength(out + [q[0]], q[1..], size); }
    }
  }

  // The queue split where editing stops: what has been typed once k characters are taken.
  function Typed(out: seq<char>, q: seq<char>, k: nat): seq<char>
    requires k <= |q|
    decreases k
  {
    if k == 0 then out
    else
      var before := Typed(out, q, k - 1);
      if q[k - 1] == BACKSPACE then Without(before) else before + [q[k - 1]]
  }

  lemma {:induction false} TypedStep(out: seq<char>, q: seq<char>, k: nat)
    requires q != [] && k <= |q| - 1
    ensures Typed(out, q, k + 1)
      == Typed(if q[0] == BACKSPACE then Without(out) else out + [q[0]], q[1..], k)
    decreases k
  {
    if k > 0 {
      TypedStep(out, q, k - 1);
    }
  }

  // k is the shortest prefix of the queue whose editing fills the output, or all of it.
  ghost predicate Fills(out: seq<char>, q: seq<char>, size: nat, k: nat) {
    && k <= |q| && |Typed(out, q, k)| <= size
    && (|Typed(out, q, k)| < size ==> k == |q|)
    && forall j: nat :: j < k ==> |Typed(out, q, j)| < size
  }

  lemma FillsStep(out: seq<char>, q: seq<char>, size: nat, i: nat)
    requires q != [] && |out| < size
    requires Fills(if q[0] == BACKSPACE then Without(out) else out + [q[0]], q[1..], size, i)
    ensures Fills(out, q, size, i + 1)
    ensures Typed(out, q, i + 1) == Typed(if q[0] == BACKSPACE then Without(out) else out + [q[0]], q[1..], i)
  {
    hide Without;
    TypedStep(out, q, i);
    forall j: nat | j < i + 1 ensures |Typed(out, q, j)| < size {
      if j > 0 { TypedStep(out, q, j - 1); }
    }
  }

  /** What sys_read delivers: it takes the shortest prefix of the queue whose editing fills the
      output, or else all of it and then zeros. */
  lemma {:induction false} ReadIsEditing(out: seq<char>, q: seq<char>, size: nat) returns (k: nat)
    requires |out| <= size
    ensures Fills(out, q, size, k) && ReadOn(out, q, size).1 == q[k..]
    ensures ReadOn(out, q, size).0 == Typed(out, q, k) + Zeros(size - |Typed(out, q, k)|)
    decreases q
  {
    hide Fills, Zeros, Typed;
    if |out| == size || q == [] {
      k := 0;
      NothingTyped(out, q, size);
      ZeroFill(out, size);
    } else {
      var next := if q[0] == BACKSPACE then Without(out) else out + [q[0]];
      var i := ReadIsEditing(next, q[1..], size);
      k := i + 1;
      FillsStep(out, q, size, i);
      InRange(next, q[1..], size, i);
      assert q[1..][i..] == q[k..];
    }
  }

  lemma TypedNone(out: seq<char>, q: seq<char>)
    ensures Typed(out, q, 0) == out
  {
  }

  lemma NothingTyped(out: seq<char>, q: seq<char>, size: nat)
    requires |out| <= size && (|out| == size || q == [])
    ensures Typed(out, q, 0) == out && Fills(out, q, size, 0) && q[0..] == q && out + Zeros(0) == out
  {
  }

  lemma InRange(out: seq<char>, q: seq<char>, size: nat, k: nat)
    requires Fills(out, q, size, k)
    ensures k <= |q| && |Typed(out, q, k)| <= size
  {
  }

  lemma {:induction false} ZeroFill(out: seq<char>, size: nat)
    requires |out| <= size
    ensures ReadOn(out, [], size) == (out + Zeros(size - |out|), [])
    decreases size - |out|
  {
    if |out| < size {
      ZeroFill(out + [NUL], size);
      assert out + [NUL] + Zeros(size - |out| - 1) == out + Zeros(size - |out|);
    } else {
      assert out + Zeros(0) == out;
    }
  }

  // ---- what editing gives ----

  /** Keys without a backspace are appended as they come. */
  lemma {:induction false} TypedPlain(out: seq<char>, q: seq<char>, k: nat)
    requires k <= |q| && forall i: nat :: i < k ==> q[i] != '\U{0008}'
    ensures Typed(out, q, k) == out + q[..k]
    decreases k
  {
    if k == 0 {
      assert out + q[..0] == out;
    } else {
      TypedPlain(out, q, k - 1);
      assert q[..k] == q[..k - 1] + [q[k - 1]];
    }
  }

  /** A backspace takes back the last character of the output; on none it has no effect. */
  lemma TypedTakesBack(out: seq<char>, c: char, q: seq<char>, k: nat)
    requires k <= |q|
    ensures Typed(out + [c], ['\U{0008}'] + q, k + 1) == Typed(out, q, k)
    ensures Typed([], ['\U{0008}'] + q, k + 1) == Typed([], q, k)
  {
    var keys := [BACKSPACE] + q;
    TypedStep(out + [c], keys, k);
    TypedStep([], keys, k);
    assert keys[1..] == q && Without(out + [c]) == out;
  }

  /** A key and the backspace after it cancel, wherever they stand. */
  lemma TypedCancels(out: seq<char>, a: seq<char>, c: char, b: seq<char>)
    requires c != '\U{0008}'
    ensures Typed(out, a + [c, '\U{0008}'] + b, |a| + 2 + |b|) == Typed(out, a + b, |a| + |b|)
  {
    hide Typed;
    TypedPair(out, a, c);
    TypedAfter(out, a + [c, BACKSPACE], b, |b|);
    TypedAfter(out, a, b, |b|);
  }

  // Editing goes on from what the first keys have left.
  lemma {:induction false} TypedAfter(out: seq<char>, a: seq<char>, b: seq<char>, k: nat)
    requires k <= |b|
    ensures Typed(out, a + b, |a| + k) == Typed(Typed(out, a, |a|), b, k)
    decreases k
  {
    if k == 0 {
      TypedSame(out, a + b, a, |a|);
    } else {
      TypedAfter(out, a, b, k - 1);
      assert (a + b)[|a| + k - 1] == b[k - 1];
    }
  }

  lemma TypedPair(out: seq<char>, a: seq<char>, c: char)
    requires c != BACKSPACE
    ensures Typed(out, a + [c, BACKSPACE], |a| + 2) == Typed(out, a, |a|)
  {
    assert (a + [c]) + [BACKSPACE] == a + [c, BACKSPACE];
    TypedLast(out, a + [c], BACKSPACE);
    TypedLast(out, a, c);
  }

  lemma TypedLast(out: seq<char>, q: seq<char>, c: char)
    ensures var before := Typed(out, q, |q|);
      Typed(out, q + [c], |q| + 1) == if c == BACKSPACE then Without(before) else before + [c]
  {
    TypedSame(out, q + [c], q, |q|);
  }

  lemma {:induction false} TypedSame(out: seq<char>, p: seq<char>, q: seq<char>, k: nat)
    requires k <= |p| && k <= |q| && forall i: nat :: i < k ==> p[i] == q[i]
    ensures Typed(out, p, k) == Typed(out, q, k)
    decreases k
  {
    if k > 0 { TypedSame(out, p, q, k - 1); }
  }

  /** sys_read without blocking: the first key is stored whatever it is, the next ones edit the
      output until it is full, and zeros fill what the keys do not. */
  lemma ReadDelivers(q: seq<char>, size: nat) returns (k: nat)
    requires q != []
    ensures var n := if size == 0 then 1 else size;
      var typed := (j: nat) requires j <= |q| - 1 => Typed([q[0]], q[1..], j);
      && k <= |q| - 1 && |typed(k)| <= n && (|typed(k)| < n ==> k == |q| - 1)
      && (forall j: nat :: j < k ==> |typed(j)| < n)
      && Read(q, size).1 == q[k + 1..]
      && |Read(q, size).0| == n
      && (forall i: nat :: i < n ==> Read(q, size).0[i] == if i < |typed(k)| then typed(k)[i] else '\0')
  {
    hide Typed;
    if size == 0 {
      k := 0;
      NothingTyped([q[0]], q[1..], 1);
    } else {
      k := ReadIsEditing([q[0]], q[1..], size);
    }
    assert q[1..][k..] == q[k + 1..];
  }

  lemma ReadNothing(size: nat)
    ensures var n := if size == 0 then 1 else size;
      |Read([], size).0| == n && Read([], size).1 == [] && forall i: nat :: i < n ==> Read([], size).0[i] == '\0'
  {
    if size == 0 {
      assert Read([], 0) == ([NUL], []);
    } else {
      ZeroFill([NUL], size);
    }
  }

  /** Without a backspace among them the keys are delivered in order, padded with zeros. */
  lemma ReadPlain(q: seq<char>, size: nat, i: nat)
    requires forall j: nat :: j < |q| ==> q[j] != '\U{0008}'
    ensures var n := if size == 0 then 1 else size;
      && |Read(q, size).0| == n && Read(q, size).1 == (if n <= |q| then q[n..] else [])
      && (i < n ==> Read(q, size).0[i] == if i < |q| then q[i] else '\0')
  {
    if q == [] {
      ReadNothing(size);
    } else {
      var k := ReadDelivers(q, size);
      PlainFrom(q, k);
      if k > 0 { PlainFrom(q, k - 1); }
    }
  }

  lemma PlainFrom(q: seq<char>, k: nat)
    requires k < |q| && forall j: nat :: j < |q| ==> q[j] != '\U{0008}'
    ensures Typed([q[0]], q[1..], k) == q[..k + 1]
  {
    TypedPlain([q[0]], q[1..], k);
    assert [q[0]] + q[1..][..k] == q[..k + 1];
  }

  // ---- as it runs ----

  class Buffer {
    const charBuffer: array<char>
    var start: nat
    var count: nat

    ghost predicate Valid()
      reads this
    {
      charBuffer.Length == BUFFER_SIZE && start < BUFFER_SIZE && count <= BUFFER_SIZE
    }

    ghost function Contents(): seq<char>
      requires Valid()
      reads this, charBuffer
    {
      Ring(charBuffer[..], start, count)
    }

    constructor ()
      ensures Valid() && Contents() == [] && fresh(charBuffer)
    {
      charBuffer := new char[BUFFER_SIZE](i => NUL);
      start, count := 0, 0;
    }

    method BufferPut(c: char)
      requires Valid()
      modifies this`count, charBuffer
      ensures Valid()
      ensures Contents() == if |old(Contents())| < BUFFER_SIZE then old(Contents()) + [c] else old(Contents())
    {
      if count != BUFFER_SIZE {
        RingAppend(charBuffer[..], start, count, c);
        charBuffer[(start + count) % BUFFER_SIZE] := c;
        count := count + 1;
      }
    }

    // Removes the most recently inserted character.
    method BufferDelete()
      requires Valid()
      modifies this`count
      ensures Valid() && Contents() == if old(Contents()) == [] then [] else old(Contents())[..|old(Contents())| - 1]
    {
      if count > 0 {
        count := count - 1;
      }
    }

    // kgetc while no key is pressed; a blocking call on an empty buffer would wait forever.
    method Kgetc(blocking: bool) returns (c: char)
      requires Valid() && (blocking ==> Contents() != [])
      modifies this`start, this`count
      ensures Valid()
      ensures old(Contents()) == [] ==> c == NUL && Contents() == []
      ensures old(Contents()) != [] ==> c == old(Contents())[0] && Contents() == old(Contents())[1..]
    {
      if count == 0 && !blocking {
        return NUL;
      }
      RingTail(charBuffer[..], start, count);
      c := charBuffer[start];
      start := (start + 1) % BUFFER_SIZE;
      count := count - 1;
    }
  }

  // ---- kgets, with the keys still to be pressed as a sequence ----

  // kgets reading from the given keys: the line, or nothing if it would wait for another key.
  datatype Line = Line(text: seq<char>, rest: seq<char>) | Waits

  function LineOn(out: seq<char>, last: char, q: seq<char>, room: nat): Line
    decreases q
  {
    if |out| >= room || last == '\n' then Line(out, q)
    else if q == [] then Waits
    else if q[0] == BACKSPACE then LineOn(Without(out), q[0], q[1..], room)
    else LineOn(out + [q[0]], q[0], q[1..], room)
  }

  // capacity - 1, a 64-bit subtraction.
  function Room(capacity: nat): nat {
    if capacity == 0 then 0xFFFF_FFFF_FFFF_FFFF else capacity - 1
  }

  function GetLine(q: seq<char>, capacity: nat): Line {
    if q == [] then Waits else LineOn([q[0]], q[0], q[1..], Room(capacity))
  }

  // A blocking sys_read, which does not stop at a newline.
  function FillOn(out: seq<char>, q: seq<char>, size: nat): Line
    decreases q
  {
    if |out| >= size then Line(out, q)
    else if q == [] then Waits
    else if q[0] == BACKSPACE then FillOn(Without(out), q[1..], size)
    else FillOn(out + [q[0]], q[1..], size)
  }

  function Fill(q: seq<char>, size: nat): Line {
    if q == [] then Waits else FillOn([q[0]], q[1..], size)
  }

  /** When enough keys are pressed a blocking read delivers what a non-blocking read of the
      same keys would. */
  lemma {:induction false} BlockingReadsTheSame(out: seq<char>, q: seq<char>, size: nat)
    requires FillOn(out, q, size).Line?
    ensures ReadOn(out, q, size) == (FillOn(out, q, size).text, FillOn(out, q, size).rest)
    decreases q
  {
    if |out| < size {
      if q[0] == BACKSPACE { BlockingReadsTheSame(Without(out), q[1..], size); }
      else { BlockingReadsTheSame(out + [q[0]], q[1..], size); }
    }
  }

  /** sys_read with blocking: the first key is stored, the next ones edit the output, and it
      returns at the first moment that is full; it waits exactly when the keys never fill it. */
  lemma FillDelivers(q: seq<char>, size: nat) returns (k: nat)
    requires q != []
    ensures var n := if size == 0 then 1 else size;
      var typed := (j: nat) requires j <= |q| - 1 => Typed([q[0]], q[1..], j);
      && k <= |q| && (forall j: nat :: j < k ==> |typed(j)| < n)
      && if k < |q| then |typed(k)| == n && Fill(q, size) == Line(typed(k), q[k + 1..]) else Fill(q, size) == Waits
  {
    hide Typed;
    var i := 0;
    if size == 0 {
      NothingTyped([q[0]], q[1..], 1);
    } else {
      i := FillIsEditing([q[0]], q[1..], size);
    }
    assert q[1..][i..] == q[i + 1..];
    k := if |Typed([q[0]], q[1..], i)| < size then i + 1 else i;
  }

  lemma {:induction false} FillIsEditing(out: seq<char>, q: seq<char>, size: nat) returns (k: nat)
    requires |out| <= size
    ensures Fills(out, q, size, k)
    ensures FillOn(out, q, size) == if |Typed(out, q, k)| == size then Line(Typed(out, q, k), q[k..]) else Waits
    decreases q
  {
    hide Fills, Zeros, Typed;
    if |out| == size || q == [] {
      k := 0;
      NothingTyped(out, q, size);
    } else {
      var next := if q[0] == BACKSPACE then Without(out) else out + [q[0]];
      var i := FillIsEditing(next, q[1..], size);
      k := i + 1;
      FillsStep(out, q, size, i);
      InRange(next, q[1..], size, i);
      assert q[1..][i..] == q[k..];
    }
  }

  /** kgets: the first key is stored, the next ones edit the line, and it ends with the first
      key that is a newline or makes the line as long as room allows; kgets waits exactly when
      there is no such key. */
  lemma LineDelivers(q: seq<char>, capacity: nat) returns (k: nat)
    requires q != []
    ensures var room := if capacity == 0 then 0xFFFF_FFFF_FFFF_FFFF else capacity - 1;
      var typed := (j: nat) requires j <= |q| - 1 => Typed([q[0]], q[1..], j);
      && k <= |q| && (forall j: nat :: j < k ==> |typed(j)| < room && q[j] != '\n')
      && (if k < |q|
          then (|typed(k)| >= room || q[k] == '\n') && GetLine(q, capacity) == Line(typed(k), q[k + 1..])
          else GetLine(q, capacity) == Waits)
  {
    hide Typed;
    k := LineEnds([q[0]], q[0], q[1..], Room(capacity));
    var room := Room(capacity);
    forall j: nat | j < k ensures |Typed([q[0]], q[1..], j)| < room && q[j] != '\n' {
      assert LastKey(q[0], q[1..], j) == q[j];
    }
    if k < |q| {
      assert LastKey(q[0], q[1..], k) == q[k];
      assert q[1..][k..] == q[k + 1..];
    }
  }

  // The last key taken once k more are.
  function LastKey(last: char, q: seq<char>, k: nat): char
    requires k <= |q|
  {
    if k == 0 then last else q[k - 1]
  }

  lemma {:induction false} LineEnds(out: seq<char>, last: char, q: seq<char>, room: nat) returns (k: nat)
    ensures k <= |q| + 1
    ensures forall j: nat :: j < k ==> |Typed(out, q, j)| < room && LastKey(last, q, j) != '\n'
    ensures if k <= |q|
      then (|Typed(out, q, k)| >= room || LastKey(last, q, k) == '\n')
        && LineOn(out, last, q, room) == Line(Typed(out, q, k), q[k..])
      else LineOn(out, last, q, room) == Waits
    decreases q
  {
    hide Typed;
    TypedNone(out, q);
    if |out| >= room || last == '\n' {
      k := 0;
      assert q[0..] == q;
    } else if q == [] {
      k := 1;
    } else {
      var next := if q[0] == BACKSPACE then Without(out) else out + [q[0]];
      var i := LineEnds(next, q[0], q[1..], room);
      k := i + 1;
      forall j: nat | 0 < j <= |q| ensures Typed(out, q, j) == Typed(next, q[1..], j - 1) {
        TypedStep(out, q, j - 1);
      }
      forall j: nat | j < k ensures |Typed(out, q, j)| < room && LastKey(last, q, j) != '\n' {
        if j > 0 {
          assert LastKey(last, q, j) == LastKey(q[0], q[1..], j - 1);
        }
      }
      if i <= |q| - 1 {
        assert q[1..][i..] == q[k..];
        assert LastKey(last, q, k) == LastKey(q[0], q[1..], i);
      }
    }
  }

  /** The line and its terminator fit the capacity exactly when the capacity is at least 2:
      kgets stores the first character before it looks at the capacity, and capacity 0
      is taken for no limit at all. */
  lemma LineFits(capacity: nat)
    ensures capacity >= 2 <==>
      forall q: seq<char> :: GetLine(q, capacity).Line? ==> |GetLine(q, capacity).text| + 1 <= capacity
  {
    if capacity >= 2 {
      forall q: seq<char> | GetLine(q, capacity).Line? ensures |GetLine(q, capacity).text| + 1 <= capacity {
        LineOnFits([q[0]], q[0], q[1..], capacity - 1);
      }
    } else {
      assert GetLine("\n", capacity) == Line("\n", []);
    }
  }

  lemma {:induction false} LineOnFits(out: seq<char>, last: char, q: seq<char>, room: nat)
    requires |out| <= room && LineOn(out, last, q, room).Line?
    ensures |LineOn(out, last, q, room).text| <= room
    decreases q
  {
    if !(|out| >= room || last == '\n') {
      if q[0] == BACKSPACE { LineOnFits(Without(out), q[0], q[1..], room); }
      else { LineOnFits(out + [q[0]], q[0], q[1..], room); }
    }
  }

  class Console {
    const buffer: Buffer
    var pending: seq<char>

    ghost predicate Valid()
      reads this, buffer
    {
      buffer.Valid()
    }

    // All the characters a blocking reader will see.
    ghost function Stream(): seq<char>
      requires Valid()
      reads this, buffer, buffer.charBuffer
    {
      buffer.Contents() + pending
    }

    constructor (buffer: Buffer, pending: seq<char>)
      requires buffer.Valid()
      ensures Valid() && this.buffer == buffer && Stream() == buffer.Contents() + pending
    {
      this.buffer := buffer;
      this.pending := pending;
    }

    // Waits until the next key press if the buffer is empty.
    method KgetcBlocking() returns (c: char)
      requires Valid() && Stream() != []
      modifies this`pending, buffer, buffer.charBuffer
      ensures Valid() && c == old(Stream())[0] && Stream() == old(Stream())[1..]
    {
      if buffer.count == 0 {
        var key := pending[0];
        pending := pending[1..];
        buffer.BufferPut(key);
      }
      c := buffer.Kgetc(true);
    }

    /** sys_read; even when asked for nothing it stores one character.  Without blocking no key
        is pressed meanwhile; a blocking read must get the keys it waits for. */
    method SysRead(fd: nat, output: array<char>, size: nat) returns (result: int)
      requires Valid() && output != buffer.charBuffer && output.Length >= size && output.Length >= 1
      requires fd == STDIN ==> Fill(Stream(), size).Line?
      modifies this`pending, buffer, buffer.charBuffer, output
      ensures Valid()
      ensures fd != STDIN && fd != STDIN_NONBLOCKING ==>
        result == -1 && output[..] == old(output[..]) && Stream() == old(Stream())
      ensures fd == STDIN || fd == STDIN_NONBLOCKING ==>
        result == Length(size) && output[Length(size)..] == old(output[Length(size)..])
      ensures fd == STDIN_NONBLOCKING ==>
        && pending == old(pending)
        && (output[..Length(size)], buffer.Contents()) == Read(old(buffer.Contents()), size)
      ensures fd == STDIN ==> Line(output[..Length(size)], Stream()) == Fill(old(Stream()), size)
    {
      hide Ring;
      if fd != STDIN && fd != STDIN_NONBLOCKING {
        return -1;
      }
      if fd == STDIN {
        result := ReadBlocking(output, size);
      } else {
        result := ReadNonblocking(output, size);
      }
    }

    method ReadNonblocking(output: array<char>, size: nat) returns (length: nat)
      requires Valid() && output != buffer.charBuffer && output.Length >= size && output.Length >= 1
      modifies buffer, output
      ensures Valid() && pending == old(pending) && length == Length(size)
      ensures (output[..length], buffer.Contents()) == Read(old(buffer.Contents()), size)
      ensures output[length..] == old(output[length..])
    {
      hide Ring;
      ghost var q := buffer.Contents();
      var c := buffer.Kgetc(false);
      length := 0;
      output[length] := c;
      length := length + 1;
      assert output[..length] == [c];
      while length < size
        invariant Valid() && length <= Length(size)
        invariant ReadOn(output[..length], buffer.Contents(), size) == Read(q, size)
        invariant output[Length(size)..] == old(output[Length(size)..])
        decreases 2 * |buffer.Contents()| + (size - length)
      {
        ghost var out := output[..length];
        c := buffer.Kgetc(false);
        if c == BACKSPACE {
          length := if length > 0 then length - 1 else 0;
          assert output[..length] == Without(out);
        } else {
          output[length] := c;
          length := length + 1;
          assert output[..length] == out + [c];
        }
      }
    }

    method ReadBlocking(output: array<char>, size: nat) returns (length: nat)
      requires Valid() && output != buffer.charBuffer && output.Length >= size && output.Length >= 1
      requires Fill(Stream(), size).Line?
      modifies this`pending, buffer, buffer.charBuffer, output
      ensures Valid() && length == Length(size)
      ensures Line(output[..length], Stream()) == Fill(old(Stream()), size)
      ensures output[length..] == old(output[length..])
    {
      hide Ring;
      ghost var line := Fill(Stream(), size);
      var c := KgetcBlocking();
      length := 0;
      output[length] := c;
      length := length + 1;
      assert output[..length] == [c];
      while length < size
        invariant Valid() && length <= Length(size)
        invariant FillOn(output[..length], Stream(), size) == line
        invariant output[Length(size)..] == old(output[Length(size)..])
        decreases |Stream()|
      {
        ghost var out := output[..length];
        c := KgetcBlocking();
        if c == BACKSPACE {
          length := if length > 0 then length - 1 else 0;
          assert output[..length] == Without(out);
        } else {
          output[length] := c;
          length := length + 1;
          assert output[..length] == out + [c];
        }
      }
    }

    // The caller's array must take what kgets stores; with a capacity of 2 or more that is no
    // more than the capacity.
    method Kgets(output: array<char>, capacity: nat) returns (length: nat)
      requires Valid() && output != buffer.charBuffer && GetLine(Stream(), capacity).Line?
      requires 2 <= output.Length && (Room(capacity) < output.Length || |Stream()| < output.Length)
      modifies this`pending, buffer, buffer.charBuffer, output
      ensures Valid() && length < output.Length && output[length] == NUL
      ensures Line(output[..length], Stream()) == GetLine(old(Stream()), capacity)
      ensures 2 <= capacity <= output.Length ==> length < capacity && output[capacity..] == old(output[capacity..])
    {
      hide Ring;
      ghost var q := Stream();
      ghost var line := GetLine(q, capacity);
      var c := KgetcBlocking();
      length := 0;
      output[length] := c;
      length := length + 1;
      assert output[..length] == [c];
      while length < Room(capacity) && c != '\n'
        invariant Valid() && length < output.Length && length + |Stream()| <= |q|
        invariant capacity >= 2 ==> length <= Room(capacity)
        invariant LineOn(output[..length], c, Stream(), Room(capacity)) == line
        invariant 2 <= capacity <= output.Length ==> output[capacity..] == old(output[capacity..])
        decreases |Stream()|
      {
        ghost var out := output[..length];
        c := KgetcBlocking();
        if c == BACKSPACE {
          length := if length > 0 then length - 1 else 0;
          assert output[..length] == Without(out);
        } else {
          output[length] := c;
          length := length + 1;
          assert output[..length] == out + [c];
        }
      }
      output[length] := NUL;
    }
  }
}
