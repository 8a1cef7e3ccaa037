// keyboard.c: the ring buffer between the keyboard interrupt and its reader.
module Keyboard {
  import opened Common

  const SIZE: nat := 256      // KBUF_SIZE

  function Next(i: nat): nat { (i + 1) % SIZE }

  /** The characters from tail up to, but not including, head. */
  function Ring(buf: seq<char>, tail: nat, head: nat): (s: seq<char>)
    requires |buf| == SIZE && tail < SIZE && head < SIZE
    ensures |s| == if tail <= head then head - tail else head + SIZE - tail
    ensures forall k {:trigger s[k]} | 0 <= k < |s| :: s[k] == buf[if tail + k < SIZE then tail + k else tail + k - SIZE]
  {
    if tail <= head then buf[tail..head] else buf[tail..] + buf[..head]
  }

  lemma NextIs(i: nat)
    requires i < SIZE
    ensures Next(i) == if i == SIZE - 1 then 0 else i + 1
  {
  }

  /** Moving head over a slot adds the character in it, unless head reaches tail. */
  lemma RingPush(buf: seq<char>, tail: nat, head: nat)
    requires |buf| == SIZE && tail < SIZE && head < SIZE && Next(head) != tail
    ensures Ring(buf, tail, Next(head)) == Ring(buf, tail, head) + [buf[head]]
  {
    NextIs(head);
  }

  /** Moving tail over a slot drops the first character. */
  lemma RingPop(buf: seq<char>, tail: nat, head: nat)
    requires |buf| == SIZE && tail < SIZE && head < SIZE && head != tail
    ensures Ring(buf, tail, head) == [buf[tail]] + Ring(buf, Next(tail), head)
  {
    NextIs(tail);
  }

  /** Writing the slot at head changes nothing in the ring. */
  lemma RingWrite(buf: seq<char>, tail: nat, head: nat, c: char)
    requires |buf| == SIZE && tail < SIZE && head < SIZE
    ensures Ring(buf[head := c], tail, head) == Ring(buf, tail, head)
  {
  }

  lemma RingFull(buf: seq<char>, tail: nat, head: nat)
    requires |buf| == SIZE && tail < SIZE && head < SIZE
    ensures |Ring(buf, tail, head)| == SIZE - 1 <==> Next(head) == tail
    ensures Ring(buf, tail, head) == [] <==> head == tail
  {
    NextIs(head);
  }

  /** The buffer and its routines, each run without interruption. */
  class Buffer {
    var head: nat
    var tail: nat
    var chars: array<char>

    ghost predicate Valid()
      reads this
    {
      chars.Length == SIZE && head < SIZE && tail < SIZE
    }

    ghost function Contents(): seq<char>
      requires Valid()
      reads this, chars
    {
      Ring(chars[..], tail, head)
    }

    constructor ()
      ensures Valid() && Contents() == [] && fresh(chars)
    {
      head, tail := 0, 0;
      chars := new char[SIZE](_ => '\0');
    }

    /** putchar_to_buffer: a character that finds 255 others waiting is dropped. */
    method PutChar(c: char)
      requires Valid()
      modifies this`head, chars
      ensures Valid() && chars == old(chars)
      ensures Contents() == if |old(Contents())| == 255 then old(Contents()) else old(Contents()) + [c]
    {
      hide Ring;
      var next := (head + 1) % SIZE;
      RingFull(chars[..], tail, head);
      if next != tail {
        ghost var before := chars[..];
        chars[head] := c;
        assert chars[..] == before[head := c];
        RingWrite(before, tail, head, c);
        RingPush(chars[..], tail, head);
        head := next;
      }
    }

    /** Reading the slot at tail */
    method Take() returns (c: char)
      requires Valid() && Contents() != []
      modifies this`tail
      ensures Valid() && old(Contents()) == [c] + Contents() && c == old(Contents())[0]
    {
      RingFull(chars[..], tail, head);
      RingPop(chars[..], tail, head);
      c := chars[tail];
      tail := (tail + 1) % SIZE;
    }

    /** Interrupts bring these characters one after the other. */
    method Burst(cs: seq<char>)
      requires Valid()
      modifies this`head, chars
      ensures Valid() && chars == old(chars)
      ensures Contents() == Capped(old(Contents()) + cs)
    {
      hide Ring, Contents;
      ghost var before := Contents();
      RingFull(chars[..], tail, head);
      AtMostFull();
      for i := 0 to |cs|
        invariant Valid() && chars == old(chars)
        invariant Contents() == Capped(before + cs[..i])
      {
        CappedStep(before + cs[..i], cs[i]);
        assert before + cs[..i] + [cs[i]] == before + cs[..i + 1];
        PutChar(cs[i]);
      }
      assert before + cs == before + cs[..|cs|];
    }

    lemma AtMostFull()
      requires Valid()
      ensures |Contents()| <= SIZE - 1
    {
    }

    lemma Emptiness()
      requires Valid()
      ensures Contents() == [] <==> head == tail
    {
      RingFull(chars[..], tail, head);
    }

    /** One turn of the hlt loop, after an empty buffer was seen */
    method Turn(r: Round)
      requires Valid() && Contents() == []
      modifies this`head, chars
      ensures Valid() && chars == old(chars) && Contents() == Capped(r.Brings())
      ensures Contents() == [] <==> head == tail
    {
      hide Ring, Contents, Capped;
      Burst(r.early);
      assert [] + r.early == r.early;
      Burst(r.late);
      CappedTwice(r.early, r.late);
      Emptiness();
    }

    /** The hlt loop. It ends when the buffer is seen non-empty. If no interrupt follows these rounds but some that come in before
        the next hlt, bringing more, it stays halted whatever they bring. */
    method Wait(rounds: seq<Round>, more: seq<char>) returns (woken: bool, used: nat)
      requires Valid()
      modifies this`head, chars
      ensures Valid() && chars == old(chars)
      ensures old(Contents()) != [] ==> woken && used == 0 && Contents() == old(Contents())
      ensures old(Contents()) == [] ==> var k := FirstBusy(rounds);
        if k < |rounds| then woken && used == k + 1 && Contents() == Capped(rounds[k].Brings())
        else !woken && used == k && Contents() == Capped(more)
    {
      hide Ring, Contents, FirstBusy, Capped, Round.Brings;
      used := 0;
      Emptiness();
      while head == tail
        invariant Valid() && chars == old(chars) && used <= |rounds|
        invariant used == 0 ==> Contents() == old(Contents())
        invariant used > 0 ==> old(Contents()) == [] && Contents() == Capped(rounds[used - 1].Brings())
        invariant forall i | 0 <= i < used - 1 :: rounds[i].Brings() == []
        invariant Contents() == [] <==> head == tail
        decreases |rounds| - used
      {
        if used == |rounds| {
          FirstBusyIs(rounds, used);
          Burst(more);
          assert [] + more == more;
          return false, used;
        }
        Turn(rounds[used]);
        used := used + 1;
      }
      woken := true;
      if used > 0 {
        FirstBusyIs(rounds, used - 1);
      }
    }

    /** getchar_from_buffer. None if it is still halted after these rounds, possibly with characters in the buffer. */
    method GetChar(rounds: seq<Round>, more: seq<char>) returns (c: Option<char>, used: nat)
      requires Valid()
      modifies this`head, this`tail, chars
      ensures Valid() && chars == old(chars)
      ensures old(Contents()) != [] ==> c.Some? && used == 0 && old(Contents()) == [c.value] + Contents()
      ensures old(Contents()) == [] ==> var k := FirstBusy(rounds);
        if k < |rounds| then c.Some? && used == k + 1 && [c.value] + Contents() == Capped(rounds[k].Brings())
        else c == None && used == k && Contents() == Capped(more)
    {
      hide Ring, Contents, FirstBusy;
      var woken;
      woken, used := Wait(rounds, more);
      if !woken {
        return None, used;
      }
      assert Contents() != [];
      var first := Take();
      c := Some(first);
    }

    /** getchar_from_buffer_timeout; arriving(i) comes in after poll i. The number of polls is a 32-bit product, and may be 0. */
    method GetCharTimeout(timeoutMs: nat, arriving: nat -> seq<char>) returns (c: char)
      requires Valid() && timeoutMs < TWO_32
      modifies this`head, this`tail, chars
      ensures Valid() && chars == old(chars)
      ensures var polls := timeoutMs * 1_000_000 % TWO_32; var k := FirstArrival(arriving, polls);
        if polls == 0 then c == '\0' && Contents() == old(Contents())
        else if old(Contents()) != [] then old(Contents()) == [c] + Contents()
        else if k + 1 < polls then [c] + Contents() == Capped(arriving(k))
        else c == '\0' && Contents() == if k < polls then Capped(arriving(k)) else []
    {
      hide Ring, Contents, FirstArrival;
      var polls := timeoutMs * 1_000_000 % TWO_32;
      ghost var k := FirstArrival(arriving, polls);
      Emptiness();
      var i := 0;
      while i < polls
        invariant 0 <= i <= polls && Valid() && chars == old(chars)
        invariant i == 0 ==> Contents() == old(Contents())
        invariant i > 0 ==> old(Contents()) == [] && i <= k + 1 && Contents() == if i <= k then [] else Capped(arriving(k))
        invariant Contents() == [] <==> head == tail
      {
        if head != tail {
          c := Take();
          return;
        }
        Burst(arriving(i));
        assert [] + arriving(i) == arriving(i);
        Emptiness();
        i := i + 1;
      }
      c := '\0';
    }
  }

  /** What the ring keeps of these characters: the first 255. */
  function Capped(s: seq<char>): (t: seq<char>)
    ensures t == [] <==> s == []
  {
    if |s| <= SIZE - 1 then s else s[..SIZE - 1]
  }

  lemma CappedStep(s: seq<char>, c: char)
    ensures Capped(s + [c]) == if |Capped(s)| == SIZE - 1 then Capped(s) else Capped(s) + [c]
  {
  }

  lemma CappedTwice(s: seq<char>, t: seq<char>)
    ensures Capped(Capped(s) + t) == Capped(s + t)
  {
  }

  /** A turn of the waiting loop: what comes in between the test and hlt, which ends no halt; and what comes in with the interrupt
      that ends the halt, or after it and before the next test. */
  datatype Round = Round(early: seq<char>, late: seq<char>) {
    function Brings(): seq<char> { early + late }
  }

  /** Position of the first round that brings a character, or the length. */
  function FirstBusy(a: seq<Round>): (k: nat)
    ensures k <= |a| && (k < |a| ==> a[k].Brings() != []) && forall i | 0 <= i < k :: a[i].Brings() == []
  {
    if a == [] || a[0].Brings() != [] then 0 else 1 + FirstBusy(a[1..])
  }

  lemma FirstBusyIs(a: seq<Round>, k: nat)
    requires k <= |a| && (k < |a| ==> a[k].Brings() != []) && forall i | 0 <= i < k :: a[i].Brings() == []
    ensures FirstBusy(a) == k
  {
    hide FirstBusy;
    var j := FirstBusy(a);
  }

  /** The first poll below n after which a character arrives, or n. */
  ghost function FirstArrival(a: nat -> seq<char>, n: nat): (k: nat)
    ensures k <= n && (k < n ==> a(k) != []) && forall i: nat | i < k :: a(i) == []
  {
    var brings := (i: nat) => a(i) != [];
    var k := FirstTrue(brings, n);
    assert forall i: nat {:trigger a(i)} | i < k :: !brings(i);
    k
  }

  // ----- Interrupts between any two steps -----

  /** Where the interrupt handler is: idle; next computed; room seen; character stored. */
  datatype Producer = Idle | Computed(c: char, next: nat) | Room(c: char, next: nat) | StoredChar(c: char, next: nat)

  /** Where the reader is: polling; a character seen; it is read; the new tail is computed. */
  datatype Consumer = Polling | Seen | Got(c: char) | Leaving(c: char, next: nat)

  /** log lists the characters that came in, and whether each was accepted; delivered those that the reader returned. */
  datatype State = State(head: nat, tail: nat, buf: seq<char>, producer: Producer, consumer: Consumer,
                         log: seq<(char, bool)>, delivered: seq<char>)

  datatype Action = Press(c: char) | Interrupt | Reader

  /** One access to the shared variables by one side. A key press starts the handler if it is not running. */
  function Step(s: State, a: Action): State
    requires |s.buf| == SIZE && s.head < SIZE && s.tail < SIZE
  {
    match a
    case Press(c) =>
      if s.producer == Idle then s.(producer := Computed(c, Next(s.head))) else s
    case Interrupt => (
      match s.producer
      case Idle => s
      case Computed(c, next) =>
        if next != s.tail then s.(producer := Room(c, next)) else s.(producer := Idle, log := s.log + [(c, false)])
      case Room(c, next) => s.(buf := s.buf[s.head := c], producer := StoredChar(c, next))
      case StoredChar(c, next) => s.(head := next % SIZE, producer := Idle, log := s.log + [(c, true)]))
    case Reader =>
      match s.consumer
      case Polling => if s.head == s.tail then s else s.(consumer := Seen)
      case Seen => s.(consumer := Got(s.buf[s.tail]))
      case Got(c) => s.(consumer := Leaving(c, Next(s.tail)))
      case Leaving(c, next) => s.(tail := next % SIZE, consumer := Polling, delivered := s.delivered + [c])
  }

  /** The accepted characters of a log, in order. */
  ghost function Accepted(log: seq<(char, bool)>): seq<char> {
    if log == [] then []
    else Accepted(log[..|log| - 1]) + if log[|log| - 1].1 then [log[|log| - 1].0] else []
  }

  ghost predicate ProducerOk(s: State)
    requires |s.buf| == SIZE && s.head < SIZE && s.tail < SIZE
  {
    match s.producer
    case Idle => true
    case Computed(c, next) => next == Next(s.head)
    case Room(c, next) => next == Next(s.head) && next != s.tail
    case StoredChar(c, next) => next == Next(s.head) && next != s.tail && s.buf[s.head] == c
  }

  ghost predicate ConsumerOk(s: State)
    requires |s.buf| == SIZE && s.head < SIZE && s.tail < SIZE
  {
    match s.consumer
    case Polling => true
    case Seen => s.head != s.tail
    case Got(c) => s.head != s.tail && s.buf[s.tail] == c
    case Leaving(c, next) => s.head != s.tail && s.buf[s.tail] == c && next == Next(s.tail)
  }

  /** What was delivered, followed by what is buffered, is what was accepted. */
  ghost predicate Inv(s: State) {
    && |s.buf| == SIZE && s.head < SIZE && s.tail < SIZE
    && ProducerOk(s) && ConsumerOk(s)
    && s.delivered + Ring(s.buf, s.tail, s.head) == Accepted(s.log)
  }

  lemma AcceptedAppend(log: seq<(char, bool)>, c: char, ok: bool)
    ensures Accepted(log + [(c, ok)]) == Accepted(log) + if ok then [c] else []
  {
    assert (log + [(c, ok)])[..|log|] == log;
  }

  lemma StepKeepsInv(s: State, a: Action)
    requires Inv(s)
    ensures Inv(Step(s, a))
  {
    match a
    case Press(c) =>
    case Interrupt => InterruptKeepsInv(s);
    case Reader => ReaderKeepsInv(s);
  }

  lemma InterruptKeepsInv(s: State)
    requires Inv(s)
    ensures Inv(Step(s, Interrupt))
  {
    hide Ring, Accepted;
    match s.producer
    case Idle =>
    case Computed(c, next) => AcceptedAppend(s.log, c, false);
    case Room(c, next) => RingWrite(s.buf, s.tail, s.head, c);
    case StoredChar(c, next) =>
      RingPush(s.buf, s.tail, s.head);
      AcceptedAppend(s.log, c, true);
      var t := Step(s, Interrupt);
      assert t.delivered + Ring(t.buf, t.tail, t.head) == s.delivered + Ring(s.buf, s.tail, s.head) + [c];
  }

  lemma ReaderKeepsInv(s: State)
    requires Inv(s)
    ensures Inv(Step(s, Reader))
  {
    hide Ring, Accepted;
    match s.consumer
    case Polling =>
    case Seen =>
    case Got(c) =>
    case Leaving(c, next) =>
      RingPop(s.buf, s.tail, s.head);
      RoomStays(s);
      var t := Step(s, Reader);
      assert s.delivered + ([c] + Ring(s.buf, next, s.head)) == s.delivered + [c] + Ring(s.buf, next, s.head);
  }

  /** The reader cannot use up the slot that the handler found free. */
  lemma RoomStays(s: State)
    requires |s.buf| == SIZE && s.head < SIZE && s.tail < SIZE && s.head != s.tail
    ensures Next(s.head) != Next(s.tail) && Next(s.tail) < SIZE
  {
    NextIs(s.head);
    NextIs(s.tail);
  }

  ghost function Run(s: State, actions: seq<Action>): (t: State)
    requires Inv(s)
    ensures Inv(t)
    decreases |actions|
  {
    if actions == [] then s else StepKeepsInv(s, actions[0]); Run(Step(s, actions[0]), actions[1..])
  }

  ghost predicate Start(s: State) {
    |s.buf| == SIZE && s.head == s.tail == 0 && s.producer == Idle && s.consumer == Polling && s.log == [] && s.delivered == []
  }

  /** In every interleaving, what the reader got and what is buffered are the accepted characters in order; at most 255 are buffered. */
  lemma {:induction false} EveryRun(s: State, actions: seq<Action>)
    requires Inv(s)
    ensures var t := Run(s, actions);
      && Inv(t) && t.delivered + Ring(t.buf, t.tail, t.head) == Accepted(t.log) && |Ring(t.buf, t.tail, t.head)| <= SIZE - 1
    decreases |actions|
  {
    if actions == [] {
    } else {
      StepKeepsInv(s, actions[0]);
      EveryRun(Step(s, actions[0]), actions[1..]);
    }
  }

  lemma StartInv(s: State)
    requires Start(s)
    ensures Inv(s)
  {
  }

  /** The characters of the keys that were pressed when the handler was not running. */
  ghost function Pressed(s: State, actions: seq<Action>): seq<char>
    requires Inv(s)
    decreases |actions|
  {
    if actions == [] then []
    else
      StepKeepsInv(s, actions[0]);
      (if actions[0].Press? && s.producer == Idle then [actions[0].c] else []) + Pressed(Step(s, actions[0]), actions[1..])
  }

  /** The characters that the handler has dealt with, and the one that it is dealing with. */
  ghost function CameIn(s: State): seq<char> {
    seq(|s.log|, i requires 0 <= i < |s.log| => s.log[i].0) + if s.producer == Idle then [] else [s.producer.c]
  }

  /** Those are the keys pressed, in order: none is altered, lost or made up. */
  lemma {:induction false} LogIsPresses(s: State, actions: seq<Action>)
    requires Inv(s)
    ensures CameIn(Run(s, actions)) == CameIn(s) + Pressed(s, actions)
    decreases |actions|
  {
    hide Inv;
    if actions != [] {
      var a := actions[0];
      StepKeepsInv(s, a);
      assert |s.buf| == SIZE && s.head < SIZE && s.tail < SIZE by { InvSizes(s); }
      var now := if a.Press? && s.producer == Idle then [a.c] else [];
      OneCameIn(s, a);
      LogIsPresses(Step(s, a), actions[1..]);
      assert CameIn(s) + (now + Pressed(Step(s, a), actions[1..])) == CameIn(s) + now + Pressed(Step(s, a), actions[1..]);
    }
  }

  lemma InvSizes(s: State)
    requires Inv(s)
    ensures |s.buf| == SIZE && s.head < SIZE && s.tail < SIZE
  {
  }

  lemma OneCameIn(s: State, a: Action)
    requires |s.buf| == SIZE && s.head < SIZE && s.tail < SIZE
    ensures CameIn(Step(s, a)) == CameIn(s) + if a.Press? && s.producer == Idle then [a.c] else []
  {
  }

  /** Four accesses of the reader, from the test on, take the first character out of the ring and deliver it. */
  lemma ReaderTakesFirst(s: State)
    requires Inv(s) && s.consumer == Polling && Ring(s.buf, s.tail, s.head) != []
    ensures var t := Run(s, [Reader, Reader, Reader, Reader]);
      && t.delivered == s.delivered + [Ring(s.buf, s.tail, s.head)[0]] && t.consumer == Polling
      && Ring(t.buf, t.tail, t.head) == Ring(s.buf, s.tail, s.head)[1..] && t.log == s.log && t.producer == s.producer
  {
    hide Ring, Inv, Run;
    InvSizes(s);
    RingFull(s.buf, s.tail, s.head);
    RingPop(s.buf, s.tail, s.head);
    NextIs(s.tail);
    RunFour(s, Reader, Reader, Reader, Reader);
    FourReads(s);
    hide Step, Next;
  }

  lemma FourReads(s: State)
    requires |s.buf| == SIZE && s.head < SIZE && s.tail < SIZE && s.head != s.tail && s.consumer == Polling
    ensures var three := Step(Step(Step(s, Reader), Reader), Reader);
      |three.buf| == SIZE && three.head < SIZE && three.tail < SIZE &&
      Step(three, Reader) == s.(tail := Next(s.tail), delivered := s.delivered + [s.buf[s.tail]])
  {
    NextIs(s.tail);
    var c := s.buf[s.tail];
    var two := Step(Step(s, Reader), Reader);
    assert two == s.(consumer := Got(c));
    assert Step(two, Reader) == s.(consumer := Leaving(c, Next(s.tail)));
  }

  /** A key press and three accesses of the handler put the character behind those in the ring; if 255 are there, the first access
      drops it. */
  lemma HandlerStores(s: State, c: char)
    requires Inv(s) && s.producer == Idle
    ensures var t := Run(s, [Press(c), Interrupt, Interrupt, Interrupt]); var ring := Ring(s.buf, s.tail, s.head);
      && t.producer == Idle && t.delivered == s.delivered && t.consumer == s.consumer
      && Ring(t.buf, t.tail, t.head) == (if |ring| == 255 then ring else ring + [c]) && t.log == s.log + [(c, |ring| < 255)]
  {
    hide Ring, Inv, Run;
    InvSizes(s);
    RingFull(s.buf, s.tail, s.head);
    NextIs(s.head);
    RunFour(s, Press(c), Interrupt, Interrupt, Interrupt);
    var one := Step(s, Press(c));
    assert one == s.(producer := Computed(c, Next(s.head)));
    var two := Step(one, Interrupt);
    if Next(s.head) == s.tail {
      assert two == s.(log := s.log + [(c, false)]);
      assert Step(Step(two, Interrupt), Interrupt) == two;
    } else {
      assert two == s.(producer := Room(c, Next(s.head)));
      var three := Step(two, Interrupt);
      assert three == s.(buf := s.buf[s.head := c], producer := StoredChar(c, Next(s.head)));
      assert Step(three, Interrupt) == s.(buf := s.buf[s.head := c], head := Next(s.head), log := s.log + [(c, true)]);
      RingWrite(s.buf, s.tail, s.head, c);
      RingPush(s.buf[s.head := c], s.tail, s.head);
    }
  }

  lemma RunFour(s: State, a: Action, b: Action, c: Action, d: Action)
    requires Inv(s)
    ensures Inv(Step(s, a)) && Inv(Step(Step(s, a), b)) && Inv(Step(Step(Step(s, a), b), c))
    ensures Run(s, [a, b, c, d]) == Step(Step(Step(Step(s, a), b), c), d)
  {
    hide Step, Ring, Accepted, ProducerOk, ConsumerOk, Run;
    RunIs(s, a, [b, c, d]);
    RunIs(Step(s, a), b, [c, d]);
    RunIs(Step(Step(s, a), b), c, [d]);
    RunIs(Step(Step(Step(s, a), b), c), d, []);
    RunIs(Step(Step(Step(Step(s, a), b), c), d), d, []);
    assert [a, b, c, d] == [a] + [b, c, d] && [b, c, d] == [b] + [c, d] && [c, d] == [c] + [d] && [d] == [d] + [];
  }

  lemma RunIs(s: State, a: Action, rest: seq<Action>)
    requires Inv(s)
    ensures Inv(Step(s, a)) && Run(s, [a] + rest) == Run(Step(s, a), rest)
    ensures Run(s, []) == s
  {
    StepKeepsInv(s, a);
    assert ([a] + rest)[1..] == rest;
  }

  /** From the start on, every key pressed while the handler was idle is dealt with in order, and dropped or kept; the kept ones are
      delivered or still buffered, at most 255 of them. */
  lemma FromStart(s: State, actions: seq<Action>)
    requires Start(s)
    ensures Inv(s) && var t := Run(s, actions);
      && CameIn(t) == Pressed(s, actions)
      && t.delivered <= Accepted(t.log) && |t.delivered| <= |Accepted(t.log)| <= |t.delivered| + 255
  {
    hide Run, Accepted, Pressed;
    StartInv(s);
    EveryRun(s, actions);
    LogIsPresses(s, actions);
  }

  /** A character is dropped exactly when the handler, looking at tail, finds 255 characters in the ring. */
  lemma DroppedOnlyIfFull(s: State, a: Action)
    requires Inv(s)
    ensures var t := Step(s, a);
      (exists c :: t.log == s.log + [(c, false)]) <==> a == Interrupt && s.producer.Computed? && |Ring(s.buf, s.tail, s.head)| == 255
  {
    RingFull(s.buf, s.tail, s.head);
    var t := Step(s, a);
    if a == Interrupt && s.producer.Computed? && s.producer.next == s.tail {
      assert t.log == s.log + [(s.producer.c, false)];
    } else if a == Interrupt && s.producer.StoredChar? {
      assert t.log[|s.log|] == (s.producer.c, true);
      forall c ensures t.log != s.log + [(c, false)] {
        assert (s.log + [(c, false)])[|s.log|] == (c, false);
      }
    } else {
      assert |t.log| == |s.log|;
      forall c ensures t.log != s.log + [(c, false)] {
        assert |s.log + [(c, false)]| == |s.log| + 1;
      }
    }
  }
}
