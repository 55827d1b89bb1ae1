/** drivers/keyboard.c: the ring between the keyboard interrupt and the reader. */
module Keyboard {
  import opened Words

  const BUF_SIZE: int := 64

  const SCANCODE_MAP_LEN: int := 89

  /** scancode_map, zero for keys without a character. */
  function ScancodeMap(sc: int): char
    requires 0 <= sc < SCANCODE_MAP_LEN
  {
    if sc < 0x10 then "\0\01234567890-=\U{8}\t"[sc]
    else if sc < 0x20 then "qwertyuiop[]\n\0as"[sc - 0x10]
    else if sc < 0x30 then "dfghjkl;'`\0\\zxcv"[sc - 0x20]
    else if sc < 0x3A then "bnm,./\0*\0 "[sc - 0x30]
    else '\0'
  }

  /** The character of a scancode, or '\0' for one the handler ignores. */
  function Translate(sc: u8): char
  {
    if sc >= 0x80 then '\0'
    else if sc == 0xE0 then '\0'
    else if sc < SCANCODE_MAP_LEN then ScancodeMap(sc) else '\0'
  }

  /** The index after i in the ring. */
  function Bump(i: int): int
  {
    if i == BUF_SIZE - 1 then 0 else i + 1
  }

  /** Which is what incrementing and masking with KB_BUF_MASK gives. */
  lemma MaskIsBump(i: int)
    requires 0 <= i < BUF_SIZE
    ensures (i + 1) % BUF_SIZE == Bump(i)
  {
  }

  datatype Ring = Ring(buf: seq<char>, head: int, tail: int)

  predicate RingOk(r: Ring)
  {
    |r.buf| == BUF_SIZE && 0 <= r.head < BUF_SIZE && 0 <= r.tail < BUF_SIZE
  }

  /** The characters waiting, oldest first. */
  function Queue(r: Ring): seq<char>
    requires RingOk(r)
  {
    if r.tail <= r.head then r.buf[r.tail..r.head] else r.buf[r.tail..] + r.buf[..r.head]
  }

  /** keyboard_irq1_handler on a scancode from the port. */
  function Interrupt(r: Ring, sc: u8): (r': Ring)
    requires RingOk(r)
    ensures RingOk(r') && r'.tail == r.tail
  {
    var c := Translate(sc);
    if c != '\0' && Bump(r.head) != r.tail then Ring(r.buf[r.head := c], Bump(r.head), r.tail) else r
  }

  /** What an interrupt means to the queue: a character is lost only when 63 are waiting. */
  function Accept(q: seq<char>, sc: u8): seq<char>
  {
    if Translate(sc) != '\0' && |q| < BUF_SIZE - 1 then q + [Translate(sc)] else q
  }

  lemma InterruptIsAccept(r: Ring, sc: u8)
    requires RingOk(r)
    ensures Queue(Interrupt(r, sc)) == Accept(Queue(r), sc)
    ensures |Queue(r)| <= BUF_SIZE - 1
  {
    var r' := Interrupt(r, sc);
    assert |Queue(r)| == BUF_SIZE - 1 <==> Bump(r.head) == r.tail;
    if r' != r {
      if r.tail <= r.head {
        assert Queue(r) == r.buf[r.tail..r.head];
        if r.head + 1 < BUF_SIZE {
          assert r'.buf[r.tail..r.head + 1] == r.buf[r.tail..r.head] + [Translate(sc)];
        } else {
          assert r'.buf[r.tail..] == r.buf[r.tail..r.head] + [Translate(sc)] && r'.buf[..0] == [];
        }
      } else {
        assert r'.buf[r.tail..] == r.buf[r.tail..];
        assert r'.buf[..r.head + 1] == r.buf[..r.head] + [Translate(sc)];
        assert Queue(r') == r.buf[r.tail..] + (r.buf[..r.head] + [Translate(sc)]);
      }
    }
  }

  class KeyboardBuffer {
    const buf: array<char>
    var head: int
    var tail: int

    ghost predicate Valid()
      reads this
    {
      buf.Length == BUF_SIZE && 0 <= head < BUF_SIZE && 0 <= tail < BUF_SIZE
    }

    ghost function AsRing(): Ring
      reads this, buf
    {
      Ring(buf[..], head, tail)
    }

    constructor ()
      ensures Valid() && fresh(buf) && Queue(AsRing()) == []
    {
      buf := new char[BUF_SIZE](_ => '\0');
      head, tail := 0, 0;
    }

    method Irq1Handler(sc: u8)
      requires Valid()
      modifies this`head, buf
      ensures Valid() && AsRing() == Interrupt(old(AsRing()), sc)
      ensures sc >= 0x80 ==> AsRing() == old(AsRing())
    {
      if sc >= 0x80 { return; }
      if sc == 0xE0 { return; }
      if sc < SCANCODE_MAP_LEN {
        var c := ScancodeMap(sc);
        if c != '\0' {
          MaskIsBump(head);
          var next := (head + 1) % BUF_SIZE;
          if next != tail {
            buf[head] := c;
            head := next;
          }
        }
      }
    }

    /** Any number of keyboard interrupts. */
    method Irqs(scs: seq<u8>)
      requires Valid()
      modifies this`head, buf
      ensures Valid() && AsRing() == Interrupts(old(AsRing()), scs)
    {
      for i := 0 to |scs|
        invariant Valid() && AsRing() == Interrupts(old(AsRing()), scs[..i])
      {
        Irq1Handler(scs[i]);
        assert scs[..i + 1][..i] == scs[..i];
      }
      assert scs[..|scs|] == scs;
    }

    /** keyboard_getchar, with interrupts arriving between any two of its steps: after the
        test, after the load and after the store. Zero means that the queue was empty when
        it was tested; otherwise the oldest character leaves, and every character that the
        interrupts bring is kept while there is room for it. */
    method GetChar(afterTest: seq<u8>, afterLoad: seq<u8>, afterStore: seq<u8>) returns (c: char)
      requires Valid()
      modifies this, buf
      ensures Valid()
      ensures var q := Queue(old(AsRing()));
              if q == [] then
                c == '\0' && Queue(AsRing()) == AcceptAll(q, afterTest)
              else
                && c == q[0]
                && Queue(AsRing()) == AcceptAll(AcceptAll(q, afterTest + afterLoad)[1..], afterStore)
    {
      if tail == head {
        Irqs(afterTest);
        InterruptsAccept(old(AsRing()), afterTest);
        return '\0';
      }
      Irqs(afterTest);
      c := buf[tail];
      Irqs(afterLoad);
      MaskIsBump(tail);
      tail := (tail + 1) % BUF_SIZE;
      Irqs(afterStore);
      OldestIsLoaded(old(AsRing()), afterTest);
      InterruptsAppend(old(AsRing()), afterTest, afterLoad);
      OldestLeaves(old(AsRing()), afterTest + afterLoad, afterStore);
    }

    method Poll() returns (waiting: bool)
      requires Valid()
      ensures waiting <==> Queue(AsRing()) != []
    {
      waiting := tail != head;
    }
  }

  function Interrupts(r: Ring, scs: seq<u8>): (r': Ring)
    requires RingOk(r)
    ensures RingOk(r') && r'.tail == r.tail
  {
    if scs == [] then r else Interrupt(Interrupts(r, scs[..|scs| - 1]), scs[|scs| - 1])
  }

  /** Interrupts only add at the back. */
  function AcceptAll(q: seq<char>, scs: seq<u8>): (r: seq<char>)
    ensures |r| >= |q| && r[..|q|] == q
  {
    if scs == [] then q else Accept(AcceptAll(q, scs[..|scs| - 1]), scs[|scs| - 1])
  }

  lemma {:induction false} InterruptsAccept(r: Ring, scs: seq<u8>)
    requires RingOk(r)
    ensures Queue(Interrupts(r, scs)) == AcceptAll(Queue(r), scs)
  {
    if scs != [] {
      InterruptsAccept(r, scs[..|scs| - 1]);
      InterruptIsAccept(Interrupts(r, scs[..|scs| - 1]), scs[|scs| - 1]);
    }
  }

  lemma {:induction false} InterruptsAppend(r: Ring, a: seq<u8>, b: seq<u8>)
    requires RingOk(r)
    ensures Interrupts(r, a + b) == Interrupts(Interrupts(r, a), b)
  {
    if b == [] {
      assert a + b == a;
    } else {
      assert (a + b)[..|a + b| - 1] == a + b[..|b| - 1];
      InterruptsAppend(r, a, b[..|b| - 1]);
    }
  }

  lemma DropOldest(r: Ring)
    requires RingOk(r) && r.tail != r.head
    ensures Queue(r) != [] && Queue(r)[0] == r.buf[r.tail]
    ensures Queue(r.(tail := Bump(r.tail))) == Queue(r)[1..]
  {
    if r.tail < r.head {
      SliceHead(r.buf, r.tail, r.head);
    } else {
      DropWrapped(r);
    }
  }

  lemma DropWrapped(r: Ring)
    requires RingOk(r) && r.tail > r.head
    ensures Queue(r) != [] && Queue(r)[0] == r.buf[r.tail]
    ensures Queue(r.(tail := Bump(r.tail))) == Queue(r)[1..]
  {
    var front, back := r.buf[..r.head], r.buf[r.tail + 1..BUF_SIZE];
    SliceHead(r.buf, r.tail, BUF_SIZE);
    assert r.buf[r.tail..] == r.buf[r.tail..BUF_SIZE];
    TailOfThree(r.buf[r.tail], back, front);
    var next := r.(tail := Bump(r.tail));
    if r.tail == BUF_SIZE - 1 {
      assert back == [] && Queue(next) == r.buf[0..r.head];
    } else {
      assert Queue(next) == r.buf[r.tail + 1..] + front && r.buf[r.tail + 1..] == back;
    }
  }

  lemma TailOfThree(c: char, a: seq<char>, b: seq<char>)
    ensures (([c] + a) + b)[0] == c && (([c] + a) + b)[1..] == a + b
  {
  }

  lemma SliceHead(b: seq<char>, i: int, j: int)
    requires 0 <= i < j <= |b|
    ensures b[i..j] == [b[i]] + b[i + 1..j]
  {
  }

  /** The character loaded is the oldest, whatever arrived since the test. */
  lemma OldestIsLoaded(r: Ring, scs: seq<u8>)
    requires RingOk(r) && r.tail != r.head
    ensures Queue(r) != [] && Interrupts(r, scs).buf[r.tail] == Queue(r)[0]
  {
    var full := Interrupts(r, scs);
    DropOldest(r);
    InterruptsAccept(r, scs);
    assert Queue(full)[0] == Queue(full)[..|Queue(r)|][0];
    assert full.tail != full.head;
    DropOldest(full);
  }

  /** The store of the new tail takes the oldest character out, whatever arrived before it. */
  lemma OldestLeaves(r: Ring, scs: seq<u8>, afterStore: seq<u8>)
    requires RingOk(r) && r.tail != r.head
    ensures var stored := Interrupts(r, scs).(tail := Bump(r.tail));
            && AcceptAll(Queue(r), scs) != []
            && Queue(Interrupts(stored, afterStore)) == AcceptAll(AcceptAll(Queue(r), scs)[1..], afterStore)
  {
    var full := Interrupts(r, scs);
    DropOldest(r);
    InterruptsAccept(r, scs);
    assert full.tail != full.head;
    DropOldest(full);
    InterruptsAccept(full.(tail := Bump(full.tail)), afterStore);
  }

  /** The reader's progress through keyboard_getchar. */
  datatype Reader = Idle | Loading | Storing(c: char)

  /** The ring, the reader, and the two histories that the driver does not keep. */
  datatype System = System(ring: Ring, reader: Reader, accepted: seq<char>, consumed: seq<char>, empties: nat)

  datatype Event = Key(sc: u8) | ReaderStep

  function Step(s: System, e: Event): System
    requires RingOk(s.ring)
  {
    match e
    case Key(sc) =>
      var taken := Translate(sc) != '\0' && Bump(s.ring.head) != s.ring.tail;
      s.(ring := Interrupt(s.ring, sc), accepted := if taken then s.accepted + [Translate(sc)] else s.accepted)
    case ReaderStep =>
      match s.reader
      case Idle => if s.ring.tail == s.ring.head then s.(empties := s.empties + 1) else s.(reader := Loading)
      case Loading => s.(reader := Storing(s.ring.buf[s.ring.tail]))
      case Storing(c) => s.(ring := s.ring.(tail := Bump(s.ring.tail)), reader := Idle, consumed := s.consumed + [c])
  }

  function RunAll(s: System, es: seq<Event>): System
    requires RingOk(s.ring)
    decreases |es|
  {
    if es == [] then s else RunAll(Step(s, es[0]), es[1..])
  }

  /** Nothing is lost, duplicated or reordered between acceptance and consumption. */
  predicate Linear(s: System)
  {
    && RingOk(s.ring) && s.consumed + Queue(s.ring) == s.accepted && |Queue(s.ring)| <= BUF_SIZE - 1
    && (s.reader != Idle ==> Queue(s.ring) != [])
    && (s.reader.Storing? ==> s.reader.c == Queue(s.ring)[0])
  }

  lemma RoomIff(r: Ring)
    requires RingOk(r)
    ensures |Queue(r)| < BUF_SIZE - 1 <==> Bump(r.head) != r.tail
  {
  }

  lemma KeyKeepsLinear(s: System, sc: u8)
    requires Linear(s)
    ensures Linear(Step(s, Key(sc)))
  {
    RoomIff(s.ring);
    InterruptIsAccept(s.ring, sc);
    InterruptIsAccept(Interrupt(s.ring, sc), sc);
  }

  lemma ReaderKeepsLinear(s: System)
    requires Linear(s)
    ensures Linear(Step(s, ReaderStep))
  {
    if s.ring.tail != s.ring.head {
      DropOldest(s.ring);
      MoveFirst(s.consumed, Queue(s.ring));
    }
  }

  lemma MoveFirst(a: seq<char>, b: seq<char>)
    requires b != []
    ensures (a + [b[0]]) + b[1..] == a + b
  {
  }

  lemma StepKeepsLinear(s: System, e: Event)
    requires Linear(s)
    ensures Linear(Step(s, e))
  {
    match e
    case Key(sc) => KeyKeepsLinear(s, sc);
    case ReaderStep => ReaderKeepsLinear(s);
  }

  /** Main result: the interrupt may land between any two steps of the reader, any number of
      times, and the ring is still a queue. */
  lemma {:induction false} RunKeepsLinear(s: System, es: seq<Event>)
    requires Linear(s)
    ensures Linear(RunAll(s, es))
    decreases |es|
  {
    if es != [] {
      StepKeepsLinear(s, es[0]);
      RunKeepsLinear(Step(s, es[0]), es[1..]);
    }
  }

  /** The reader gets somewhere: while a character waits, three of its steps consume the oldest. */
  lemma ReaderDelivers(s: System)
    requires Linear(s) && s.reader == Idle && Queue(s.ring) != []
    ensures var one := Step(s, ReaderStep);
            && RingOk(one.ring)
            && var two := Step(one, ReaderStep);
               && RingOk(two.ring)
               && var three := Step(two, ReaderStep);
                  && three.reader == Idle && three.consumed == s.consumed + [Queue(s.ring)[0]]
                  && RingOk(three.ring) && Queue(three.ring) == Queue(s.ring)[1..]
                  && three.accepted == s.accepted && three.empties == s.empties
  {
    DropOldest(s.ring);
  }

  /** An interrupt leaves the reader where it is, and the oldest character where it looks. */
  lemma KeyLeavesReader(s: System, sc: u8)
    requires Linear(s)
    ensures var next := Step(s, Key(sc));
            && next.reader == s.reader && next.consumed == s.consumed && next.empties == s.empties
            && RingOk(next.ring) && Queue(next.ring) == Accept(Queue(s.ring), sc)
            && next.accepted == s.accepted + Queue(next.ring)[|Queue(s.ring)|..]
  {
    InterruptIsAccept(s.ring, sc);
    RoomIff(s.ring);
  }

  /** A key with a character is dropped exactly when 63 characters wait, and the reader gives
      up exactly on an empty queue. */
  lemma DropsAndEmpties(s: System, sc: u8)
    requires Linear(s)
    ensures Translate(sc) != '\0' ==> (Step(s, Key(sc)).accepted == s.accepted <==> |Queue(s.ring)| == 63)
    ensures s.reader == Idle ==> (Step(s, ReaderStep).empties == s.empties + 1 <==> Queue(s.ring) == [])
  {
    InterruptIsAccept(s.ring, sc);
  }

  /** Key releases are ignored. */
  lemma ReleasesAreIgnored(q: seq<char>, sc: u8)
    requires sc >= 0x80
    ensures Accept(q, sc) == q
  {
  }

  /** The presses of keys with a character, and no others, are taken while there is room. */
  lemma PressesAreTaken(q: seq<char>, sc: u8)
    requires sc < 0x80 && |q| < BUF_SIZE - 1
    ensures Accept(q, sc) == q + if sc < SCANCODE_MAP_LEN && ScancodeMap(sc) != '\0' then [ScancodeMap(sc)] else []
  {
  }

  /** The four rows of keys, each from its leftmost key on. */
  lemma RowsOfKeys(k: nat)
    ensures k < 10 ==> ScancodeMap(0x02 + k) == "1234567890"[k]
    ensures k < 10 ==> ScancodeMap(0x10 + k) == "qwertyuiop"[k]
    ensures k < 9 ==> ScancodeMap(0x1E + k) == "asdfghjkl"[k]
    ensures k < 7 ==> ScancodeMap(0x2C + k) == "zxcvbnm"[k]
    ensures ScancodeMap(0x39) == ' ' && ScancodeMap(0x1C) == '\n'
  {
  }

  /** Only the 0xE0 prefix itself is ignored: the second byte of an extended key counts as
      the plain key, so the keypad's Enter types a line end. */
  lemma ExtendedKeysAreNotIgnored(q: seq<char>, sc: u8)
    ensures Accept(Accept(q, 0xE0), sc) == Accept(q, sc)
    ensures |q| < BUF_SIZE - 1 ==> Accept(Accept(q, 0xE0), 0x1C) == q + ['\n']
  {
    assert Translate(0xE0) == '\0';
    assert ScancodeMap(0x1C) == '\n';
  }
}
