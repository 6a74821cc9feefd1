/** The circular console input buffer of kern/console.c. */
module InputRing {
  import opened CTypes

  const CONSBUFSIZE := 512

  // ---------- The queue that the buffer stands for ----------

  /** A character other than 0 is appended; a queue that reaches the size of the buffer is empty again. */
  function Push(q: seq<byte>, c: byte): seq<byte> {
    if c == 0 then q else if |q| + 1 == CONSBUFSIZE then [] else q + [c]
  }

  function PushAll(q: seq<byte>, data: seq<byte>): seq<byte> {
    if data == [] then q else Push(PushAll(q, data[..|data| - 1]), data[|data| - 1])
  }

  /** Every queue of the buffer is shorter than it and holds no 0. */
  predicate IsQueue(q: seq<byte>) {
    |q| < CONSBUFSIZE && 0 !in q
  }

  class Ring {
    const buf: array<byte>
    var rpos: nat
    var wpos: nat

    ghost predicate Valid()
      reads this, buf
    {
      buf.Length == CONSBUFSIZE && rpos < CONSBUFSIZE && wpos < CONSBUFSIZE && 0 !in Contents()
    }

    ghost function Contents(): seq<byte>
      requires buf.Length == CONSBUFSIZE && rpos < CONSBUFSIZE && wpos < CONSBUFSIZE
      reads this, buf
    {
      if rpos <= wpos then buf[rpos..wpos] else buf[rpos..] + buf[..wpos]
    }

    constructor ()
      ensures Valid() && fresh(buf) && Contents() == []
    {
      buf, rpos, wpos := new byte[CONSBUFSIZE](_ => 0), 0, 0;
    }

    /** The body of cons_intr's loop for one character. */
    method Store(c: byte)
      requires Valid() && c != 0
      modifies this, buf
      ensures Valid() && Contents() == Push(old(Contents()), c)
    {
      buf[wpos] := c;
      wpos := wpos + 1;
      if wpos == CONSBUFSIZE {
        wpos := 0;
      }
      assert old(rpos <= wpos) ==> buf[rpos..old(wpos)] == old(buf[rpos..wpos]);
      assert old(wpos < rpos) ==> buf[rpos..] == old(buf[rpos..]) && buf[..old(wpos)] == old(buf[..wpos]);
    }

    /** cons_intr; data is what the device yields before it has no more. */
    method ConsIntr(data: seq<byte>)
      requires Valid()
      modifies this, buf
      ensures Valid() && Contents() == PushAll(old(Contents()), data)
    {
      var k := 0;
      while k < |data|
        invariant 0 <= k <= |data| && Valid()
        invariant Contents() == PushAll(old(Contents()), data[..k])
      {
        var c := data[k];
        assert data[..k + 1][..k] == data[..k];
        k := k + 1;
        if c == 0 { continue; }
        Store(c);
      }
      assert data[..k] == data;
    }

    /** The end of cons_getc: the next character, or 0 if there is none. */
    method Take() returns (c: byte)
      requires Valid()
      modifies this`rpos
      ensures Valid()
      ensures var q := old(Contents());
        if q == [] then c == 0 && Contents() == [] else c == q[0] && c != 0 && Contents() == q[1..]
    {
      ghost var q := Contents();
      if rpos != wpos {
        c := buf[rpos];
        assert c == q[0] && c in q;
        rpos := rpos + 1;
        if rpos == CONSBUFSIZE {
          rpos := 0;
        }
        assert Contents() == q[1..];
        return;
      }
      return 0;
    }

    /** cons_getc; serial and kbd are what the two devices yield when polled (nothing if there is no serial port). */
    method ConsGetc(serial: seq<byte>, kbd: seq<byte>) returns (c: byte)
      requires Valid()
      modifies this, buf
      ensures Valid()
      ensures var q := PushAll(PushAll(old(Contents()), serial), kbd);
        if q == [] then c == 0 && Contents() == [] else c == q[0] && c != 0 && Contents() == q[1..]
    {
      hide PushAll, Contents;
      ConsIntr(serial);
      ConsIntr(kbd);
      c := Take();
    }
  }

  /** What getchar gets from a queue when each poll finds further input; it keeps polling while there is none. */
  function Await(q: seq<byte>, polls: seq<(seq<byte>, seq<byte>)>): (byte, seq<byte>)
    decreases |polls|
  {
    if polls == [] then (0, q)
    else
      var q1 := PushAll(PushAll(q, polls[0].0), polls[0].1);
      if q1 == [] then Await(q1, polls[1..]) else (q1[0], q1[1..])
  }

  /** It waits while the devices yield nothing, and then delivers the first character, of the serial port if it has one. */
  lemma {:induction false} AwaitMeans(polls: seq<(seq<byte>, seq<byte>)>, k: nat)
    requires k <= |polls| && forall j :: 0 <= j < k ==> polls[j] == ([], [])
    ensures k == |polls| ==> Await([], polls) == (0, [])
    ensures k < |polls| && |polls[k].0| + |polls[k].1| < 512 && 0 !in polls[k].0 + polls[k].1 && polls[k].0 + polls[k].1 != [] ==>
      var data := polls[k].0 + polls[k].1; Await([], polls) == (data[0], data[1..])
    decreases |polls|
  {
    if k > 0 {
      AwaitMeans(polls[1..], k - 1);
    } else if polls != [] {
      var data := polls[0].0 + polls[0].1;
      PushAllConcat([], polls[0].0, polls[0].1);
      if |data| < 512 && 0 !in data {
        PushAllMeans([], data);
        assert [] + data == data;
      }
    }
  }

  /** getchar, as far as the given polls go; 0 says that it is still waiting. */
  method Getchar(ring: Ring, polls: seq<(seq<byte>, seq<byte>)>) returns (c: byte)
    requires ring.Valid()
    modifies ring, ring.buf
    ensures ring.Valid() && (c, ring.Contents()) == Await(old(ring.Contents()), polls)
    ensures c == 0 ==> ring.Contents() == [] || polls == []
  {
    c := 0;
    var k := 0;
    while k < |polls| && c == 0
      invariant 0 <= k <= |polls| && ring.Valid()
      invariant c == 0 && k > 0 ==> ring.Contents() == []
      invariant if c == 0 then Await(ring.Contents(), polls[k..]) == Await(old(ring.Contents()), polls)
                else (c, ring.Contents()) == Await(old(ring.Contents()), polls)
    {
      c := ring.ConsGetc(polls[k].0, polls[k].1);
      k := k + 1;
    }
  }

  /** Characters other than 0 queue up; the one that makes them 512 empties the queue. */
  lemma {:induction false} PushAllMeans(q: seq<byte>, data: seq<byte>)
    requires 0 !in data && |q| < 512
    ensures |q| + |data| < 512 ==> PushAll(q, data) == q + data
    ensures |q| + |data| == 512 ==> PushAll(q, data) == []
    decreases |data|
  {
    if data == [] {
      assert q + data == q;
    } else {
      PushAllMeans(q, data[..|data| - 1]);
      assert data[|data| - 1] in data;
      assert q + data == q + data[..|data| - 1] + [data[|data| - 1]];
    }
  }

  lemma {:induction false} PushAllConcat(q: seq<byte>, a: seq<byte>, b: seq<byte>)
    ensures PushAll(q, a + b) == PushAll(PushAll(q, a), b)
    decreases |b|
  {
    if b == [] {
      assert a + b == a;
    } else {
      assert (a + b)[..|a + b| - 1] == a + b[..|b| - 1];
      PushAllConcat(q, a, b[..|b| - 1]);
    }
  }

  /** A zero that a device yields is dropped. */
  lemma ZeroIsDropped(q: seq<byte>, a: seq<byte>, b: seq<byte>)
    ensures PushAll(q, a + [0] + b) == PushAll(q, a + b)
  {
    PushAllConcat(q, a + [0], b);
    PushAllConcat(q, a, b);
    assert (a + [0])[..|a|] == a;
  }

  // ---------- Every interleaving ----------

  /** An interrupt, or a call of cons_getc with what it polls. */
  datatype Event = Interrupt(data: seq<byte>) | Getc(serial: seq<byte>, kbd: seq<byte>)

  /** The queue, all nonzero characters received, those delivered, and how often the queue overflowed. */
  datatype History = History(queue: seq<byte>, received: seq<byte>, delivered: seq<byte>, overflows: nat)

  const START := History([], [], [], 0)

  function Receive(h: History, c: byte): History {
    if c == 0 then h
    else h.(queue := Push(h.queue, c), received := h.received + [c],
            overflows := if Push(h.queue, c) == [] then h.overflows + 1 else h.overflows)
  }

  function ReceiveAll(h: History, data: seq<byte>): History {
    if data == [] then h else Receive(ReceiveAll(h, data[..|data| - 1]), data[|data| - 1])
  }

  function Deliver(h: History): History {
    if h.queue == [] then h else h.(queue := h.queue[1..], delivered := h.delivered + [h.queue[0]])
  }

  function Step(h: History, e: Event): History {
    match e
    case Interrupt(data) => ReceiveAll(h, data)
    case Getc(serial, kbd) => Deliver(ReceiveAll(ReceiveAll(h, serial), kbd))
  }

  function Run(events: seq<Event>): History {
    if events == [] then START else Step(Run(events[..|events| - 1]), events[|events| - 1])
  }

  /** The received characters are the delivered ones and then the queue, with k blocks of 512 characters lost in between;
      i is the number of characters delivered since the last block. */
  ghost predicate Accounted(received: seq<byte>, delivered: seq<byte>, queue: seq<byte>, k: nat)
    decreases k
  {
    if k == 0 then received == delivered + queue
    else exists i: nat :: LastBlock(received, delivered, queue, k, i)
  }

  ghost predicate LastBlock(received: seq<byte>, delivered: seq<byte>, queue: seq<byte>, k: nat, i: nat)
    requires k > 0
    decreases k, 0
  {
    && i <= |delivered|
    && var block := |received| - |queue| - i - CONSBUFSIZE;
    && 0 <= block
    && received[block + CONSBUFSIZE..] == delivered[|delivered| - i..] + queue
    && Accounted(received[..block], delivered[..|delivered| - i], [], k - 1)
  }

  ghost predicate Inv(h: History) {
    IsQueue(h.queue) && Accounted(h.received, h.delivered, h.queue, h.overflows)
  }

  /** One more received character lengthens the queue. */
  lemma AccountedReceive(received: seq<byte>, delivered: seq<byte>, queue: seq<byte>, k: nat, c: byte)
    requires Accounted(received, delivered, queue, k)
    ensures Accounted(received + [c], delivered, queue + [c], k)
  {
    if k == 0 {
      assert received + [c] == delivered + (queue + [c]);
    } else {
      var i: nat :| LastBlock(received, delivered, queue, k, i);
      var block := |received| - |queue| - i - CONSBUFSIZE;
      assert (received + [c])[block + CONSBUFSIZE..] == received[block + CONSBUFSIZE..] + [c];
      assert (received + [c])[..block] == received[..block];
      assert LastBlock(received + [c], delivered, queue + [c], k, i);
    }
  }

  /** Without its queue the rest is still accounted for. */
  lemma AccountedRest(received: seq<byte>, delivered: seq<byte>, queue: seq<byte>, k: nat)
    requires Accounted(received, delivered, queue, k)
    ensures |queue| <= |received| && Accounted(received[..|received| - |queue|], delivered, [], k)
  {
    if k == 0 {
      assert received[..|delivered|] == delivered + [];
    } else {
      var i: nat :| LastBlock(received, delivered, queue, k, i);
      var rest := received[..|received| - |queue|];
      var block := |received| - |queue| - i - CONSBUFSIZE;
      assert rest[..block] == received[..block];
      assert rest[block + CONSBUFSIZE..] == delivered[|delivered| - i..] + [];
      assert LastBlock(rest, delivered, [], k, i);
    }
  }

  /** A queue of 512 characters is lost as the last block. */
  lemma AccountedOverflow(received: seq<byte>, delivered: seq<byte>, queue: seq<byte>, k: nat)
    requires Accounted(received, delivered, queue, k) && |queue| == CONSBUFSIZE
    ensures Accounted(received, delivered, [], k + 1)
  {
    AccountedRest(received, delivered, queue, k);
    assert delivered[..|delivered|] == delivered;
    assert LastBlock(received, delivered, [], k + 1, 0);
  }

  /** The head of the queue can be delivered. */
  lemma AccountedDeliver(received: seq<byte>, delivered: seq<byte>, queue: seq<byte>, k: nat)
    requires Accounted(received, delivered, queue, k) && |queue| > 0
    ensures Accounted(received, delivered + [queue[0]], queue[1..], k)
  {
    var delivered' := delivered + [queue[0]];
    if k == 0 {
      assert received == delivered' + queue[1..];
    } else {
      var i: nat :| LastBlock(received, delivered, queue, k, i);
      assert delivered'[..|delivered'| - (i + 1)] == delivered[..|delivered| - i];
      assert delivered'[|delivered'| - (i + 1)..] + queue[1..] == delivered[|delivered| - i..] + queue;
      assert LastBlock(received, delivered', queue[1..], k, i + 1);
    }
  }

  lemma {:induction false} ReceiveAllKeeps(h: History, data: seq<byte>)
    requires Inv(h)
    ensures Inv(ReceiveAll(h, data)) && ReceiveAll(h, data).queue == PushAll(h.queue, data)
    ensures ReceiveAll(h, data).delivered == h.delivered
    decreases |data|
  {
    if data != [] {
      hide Accounted;
      ReceiveAllKeeps(h, data[..|data| - 1]);
      var g, c := ReceiveAll(h, data[..|data| - 1]), data[|data| - 1];
      if c != 0 {
        AccountedReceive(g.received, g.delivered, g.queue, g.overflows, c);
        if |g.queue| + 1 == CONSBUFSIZE {
          AccountedOverflow(g.received + [c], g.delivered, g.queue + [c], g.overflows);
        }
      }
    }
  }

  lemma StepKeeps(h: History, e: Event)
    requires Inv(h)
    ensures Inv(Step(h, e))
  {
    match e
    case Interrupt(data) => ReceiveAllKeeps(h, data);
    case Getc(serial, kbd) =>
      ReceiveAllKeeps(h, serial);
      ReceiveAllKeeps(ReceiveAll(h, serial), kbd);
      var g := ReceiveAll(ReceiveAll(h, serial), kbd);
      if g.queue != [] { AccountedDeliver(g.received, g.delivered, g.queue, g.overflows); }
  }

  /** After every interleaving the delivered characters and the queue are what was received, in order,
      less one block of 512 consecutive characters for each overflow. */
  lemma {:induction false} EveryRunIsAccounted(events: seq<Event>)
    ensures Inv(Run(events))
    decreases |events|
  {
    if events == [] {
      assert START.received == START.delivered + START.queue;
    } else {
      EveryRunIsAccounted(events[..|events| - 1]);
      StepKeeps(Run(events[..|events| - 1]), events[|events| - 1]);
    }
  }

  /** Everything that devices yielded, in the order of the calls; each call polls the serial port and then the keyboard. */
  function Yielded(events: seq<Event>): seq<byte> {
    if events == [] then []
    else
      var last := events[|events| - 1];
      Yielded(events[..|events| - 1]) + (if last.Interrupt? then last.data else last.serial + last.kbd)
  }

  /** The characters other than 0. */
  function Nonzero(s: seq<byte>): seq<byte> {
    if s == [] then []
    else Nonzero(s[..|s| - 1]) + (if s[|s| - 1] != 0 then [s[|s| - 1]] else [])
  }

  lemma {:induction false} NonzeroConcat(a: seq<byte>, b: seq<byte>)
    ensures Nonzero(a + b) == Nonzero(a) + Nonzero(b)
    decreases |b|
  {
    if b == [] {
      assert a + b == a;
    } else {
      assert (a + b)[..|a + b| - 1] == a + b[..|b| - 1];
      NonzeroConcat(a, b[..|b| - 1]);
    }
  }

  lemma {:induction false} ReceivedBy(h: History, data: seq<byte>)
    ensures ReceiveAll(h, data).received == h.received + Nonzero(data)
    decreases |data|
  {
    if data != [] { ReceivedBy(h, data[..|data| - 1]); }
  }

  /** The received characters are those that the devices yielded, in order. */
  lemma {:induction false} ReceivedIsYielded(events: seq<Event>)
    ensures Run(events).received == Nonzero(Yielded(events))
    decreases |events|
  {
    if events != [] {
      hide Nonzero, Receive, ReceiveAll;
      var h := Run(events[..|events| - 1]);
      ReceivedIsYielded(events[..|events| - 1]);
      var before := Yielded(events[..|events| - 1]);
      match events[|events| - 1]
      case Interrupt(data) =>
        ReceivedBy(h, data);
        NonzeroConcat(before, data);
      case Getc(serial, kbd) =>
        ReceivedBy(h, serial);
        ReceivedBy(ReceiveAll(h, serial), kbd);
        NonzeroConcat(serial, kbd);
        NonzeroConcat(before, serial + kbd);
    } else {
      assert Nonzero([]) == [];
    }
  }

  /** The ring from its start through any interleaving: what it delivers and what it holds are accounted for. */
  method Drive(events: seq<Event>) returns (ring: Ring, delivered: seq<byte>)
    ensures fresh(ring) && fresh(ring.buf) && ring.Valid()
    ensures var h := Run(events);
      && ring.Contents() == h.queue && delivered == h.delivered
      && Accounted(h.received, delivered, ring.Contents(), h.overflows)
  {
    hide Accounted, Ring.Contents;
    ring := new Ring();
    delivered := [];
    for k := 0 to |events|
      invariant fresh(ring) && fresh(ring.buf) && ring.Valid()
      invariant ring.Contents() == Run(events[..k]).queue && delivered == Run(events[..k]).delivered
    {
      StepQueue(events, k);
      match events[k]
      case Interrupt(data) =>
        ring.ConsIntr(data);
      case Getc(serial, kbd) =>
        var c := ring.ConsGetc(serial, kbd);
        if c != 0 {
          delivered := delivered + [c];
        }
    }
    assert events[..|events|] == events;
    EveryRunIsAccounted(events);
  }

  /** The queue and the deliveries of one more event. */
  lemma StepQueue(events: seq<Event>, k: nat)
    requires k < |events|
    ensures var h, h1 := Run(events[..k]), Run(events[..k + 1]);
      match events[k]
      case Interrupt(data) => h1.queue == PushAll(h.queue, data) && h1.delivered == h.delivered
      case Getc(serial, kbd) =>
        var q := PushAll(PushAll(h.queue, serial), kbd);
        if q == [] then h1.queue == [] && h1.delivered == h.delivered
        else h1.queue == q[1..] && h1.delivered == h.delivered + [q[0]]
  {
    hide Inv;
    var h := Run(events[..k]);
    assert events[..k + 1][..k] == events[..k];
    EveryRunIsAccounted(events[..k]);
    match events[k]
    case Interrupt(data) => ReceiveAllKeeps(h, data);
    case Getc(serial, kbd) =>
      ReceiveAllKeeps(h, serial);
      ReceiveAllKeeps(ReceiveAll(h, serial), kbd);
  }

  /** The queue holds the most recent characters, and no character is lost or made up except by overflows. */
  lemma {:induction false} AccountedMeans(received: seq<byte>, delivered: seq<byte>, queue: seq<byte>, k: nat)
    requires Accounted(received, delivered, queue, k)
    ensures |received| == |delivered| + |queue| + CONSBUFSIZE * k
    ensures received[|received| - |queue|..] == queue
    decreases k
  {
    if k == 0 {
      assert (delivered + queue)[|delivered|..] == queue;
    } else {
      var i: nat :| LastBlock(received, delivered, queue, k, i);
      var block := |received| - |queue| - i - CONSBUFSIZE;
      AccountedMeans(received[..block], delivered[..|delivered| - i], [], k - 1);
      assert received[|received| - |queue|..] == received[block + CONSBUFSIZE..][i..];
    }
  }
}
