/** The traffic light: a two-phase state machine whose cycle loop flips the
    phase once the current dwell time has run out and publishes every new
    phase to its message queue, and a wait that consumes that queue until it
    sees green. Clock readings and the raw random draws are parameters; one
    call of `Tick` is one pass of the cycle loop. */
module TrafficLights {
  import opened MessageQueues

  datatype Phase = Red | Green

  /** The `switch` of the cycle loop: red becomes green, green becomes red. */
  function Toggle(p: Phase): (r: Phase)
    ensures r != p
  {
    match p
    case Red => Green
    case Green => Red
  }

  /** The dwell drawn from a raw `rand()` result, in milliseconds: the source
      keeps `rand() % (6001 - 4000) + 4000`. `rand()` never returns a
      negative number, so `draw` is a `nat`. */
  function DrawDwell(draw: nat): (d: int)
    ensures 4000 <= d <= 6000
    ensures d - 4000 == draw % 2001
  {
    draw % (6001 - 4000) + 4000
  }

  /** Every dwell in [4000, 6000] is drawn by some `rand()` result. */
  lemma DrawDwellReachesAll(d: int)
    requires 4000 <= d <= 6000
    ensures exists draw: nat :: DrawDwell(draw) == d
  {
    assert DrawDwell(d - 4000) == d;
  }

  /** The phase of a light that started red and has flipped `n` times. */
  function PhaseAfter(n: nat): Phase
  {
    if n == 0 then Red else Toggle(PhaseAfter(n - 1))
  }

  /** After an even number of flips the light is red, after an odd number green. */
  lemma {:induction false} PhaseAfterParity(n: nat)
    ensures PhaseAfter(n) == (if n % 2 == 0 then Red else Green)
  {
    if n > 0 {
      PhaseAfterParity(n - 1);
    }
  }

  /** The first `n` phases a light that started red publishes, oldest
      first: one after each flip. */
  function Publications(n: nat): (s: seq<Phase>)
    ensures |s| == n
  {
    if n == 0 then [] else Publications(n - 1) + [PhaseAfter(n)]
  }

  /** `s` holds, in order, the publications number `before + 1`,
      `before + 2`, ... of a light that started red. */
  ghost predicate Consecutive(s: seq<Phase>, before: nat)
  {
    forall i :: 0 <= i < |s| ==> s[i] == PhaseAfter(before + i + 1)
  }

  /** Publication number `i + 1` is the phase after `i + 1` flips. */
  lemma {:induction false} PublicationsConsecutive(n: nat)
    ensures Consecutive(Publications(n), 0)
  {
    if n > 0 {
      PublicationsConsecutive(n - 1);
      var s := Publications(n);
      forall i | 0 <= i < n
        ensures s[i] == PhaseAfter(i + 1)
      {
        if i < n - 1 {
          assert s[i] == Publications(n - 1)[i];
        }
      }
    }
  }

  /** Publications of a light that started red alternate: the first is
      green and each one is the other phase than the one before it. */
  lemma PublicationsAlternate(n: nat)
    ensures n > 0 ==> Publications(n)[0] == Green
    ensures forall i :: 0 < i < n ==> Publications(n)[i] == Toggle(Publications(n)[i - 1])
  {
    PublicationsConsecutive(n);
    var s := Publications(n);
    assert n > 0 ==> s[0] == PhaseAfter(1);
    forall i | 0 < i < n
      ensures s[i] == Toggle(s[i - 1])
    {
      assert s[i] == PhaseAfter(i + 1) && s[i - 1] == PhaseAfter(i);
    }
  }

  /** Position of the first green in `s`: the number of messages a wait for
      green skips before the one it stops at. */
  function FirstGreen(s: seq<Phase>): (k: nat)
    requires Green in s
    ensures k < |s| && s[k] == Green
    ensures forall j :: 0 <= j < k ==> s[j] != Green
  {
    if s[0] == Green then 0 else 1 + FirstGreen(s[1..])
  }

  /** Among consecutive publications a green is pending exactly when two of
      them are, or the only one is green, and it is at most one message away. */
  lemma {:induction false} GreenWithinTwo(s: seq<Phase>, before: nat)
    requires Consecutive(s, before)
    ensures Green in s <==> |s| >= 2 || (|s| == 1 && s[0] == Green)
    ensures Green in s ==> FirstGreen(s) <= 1
  {
    if |s| >= 2 {
      PhaseAfterParity(before + 1);
      PhaseAfterParity(before + 2);
      assert s[0] == PhaseAfter(before + 1) && s[1] == PhaseAfter(before + 2);
      assert s[0] == Green || s[1] == Green;
    }
  }

  /** A suffix of consecutive publications is itself consecutive. */
  lemma {:induction false} ConsecutiveSuffix(s: seq<Phase>, before: nat, k: nat)
    requires Consecutive(s, before) && k <= |s|
    ensures Consecutive(s[k..], before + k)
  {
    forall i | 0 <= i < |s| - k
      ensures s[k..][i] == PhaseAfter(before + k + i + 1)
    {
      assert s[k..][i] == s[k + i];
    }
  }

  /** `TrafficLight`. `start` and `dwell` are the cycle loop's `start` and
      `random`, kept as fields so that one pass of the loop is a method;
      `dwell` is in milliseconds. `published` records every phase the loop
      has sent, oldest first. */
  class TrafficLight {
    var phase: Phase
    const message: MessageQueue<Phase>
    var start: int
    var dwell: int
    ghost var published: seq<Phase>

    /** The light has flipped once per publication, it published the phases
        of a light that started red, and the deque holds the newest of its
        publications, the newest at the front. */
    ghost predicate Valid()
      reads this, message
    {
      && phase == PhaseAfter(|published|)
      && published == Publications(|published|)
      && |message.queue| <= |published|
      && forall i :: 0 <= i < |message.queue| ==>
           message.queue[i] == published[|published| - 1 - i]
    }

    /** The constructor: the light starts red with nothing published. */
    constructor ()
      ensures Valid() && fresh(message)
      ensures phase == Red && message.queue == [] && published == []
    {
      phase := Red;
      message := new MessageQueue<Phase>();
      start, dwell := 0, 0;
      published := [];
    }

    /** `getCurrentPhase`: the stored phase, which is green exactly when the
        light has published an odd number of phases. */
    method GetCurrentPhase() returns (p: Phase)
      ensures p == phase
      ensures Valid() ==> (p == Green <==> |published| % 2 == 1)
    {
      PhaseAfterParity(|published|);
      p := phase;
    }

    /** What is pending is the newest part of what the light published, in
        publication order. */
    lemma PendingNewest()
      requires Valid()
      ensures |message.Pending()| <= |published|
      ensures message.Pending() == published[|published| - |message.Pending()|..]
    {
      var pending, q := message.Pending(), message.queue;
      forall i | 0 <= i < |pending|
        ensures pending[i] == published[|published| - |pending|..][i]
      {
        DeliveriesAt(q, i);
      }
    }

    /** The pending messages are consecutive publications. */
    lemma PendingConsecutive()
      requires Valid()
      ensures Consecutive(message.Pending(), |published| - |message.Pending()|)
    {
      PendingNewest();
      PublicationsConsecutive(|published|);
      ConsecutiveSuffix(published, 0, |published| - |message.Pending()|);
    }

    /** Entry of the cycle loop: note the start time and draw the first dwell. */
    method BeginCycle(now: int, draw: nat)
      requires Valid()
      modifies this
      ensures Valid()
      ensures start == now && dwell == DrawDwell(draw)
      ensures phase == old(phase) && published == old(published)
    {
      start := now;
      dwell := DrawDwell(draw);
    }

    /** One pass of the cycle loop. `now` is the clock reading compared with
        the dwell, `restart` the later reading that becomes the new start
        and `draw` the raw `rand()` result for the next dwell. Once the
        elapsed time has reached the dwell the pass redraws the dwell,
        restarts the timer, flips the phase and sends the new phase; before
        that it changes nothing. */
    method Tick(now: int, restart: int, draw: nat)
      requires Valid()
      modifies this, message
      ensures Valid()
      ensures old(now - start >= dwell) ==>
        && phase == Toggle(old(phase))
        && dwell == DrawDwell(draw) && start == restart
        && message.queue == [phase] + old(message.queue)
        && message.Pending() == old(message.Pending()) + [phase]
        && published == old(published) + [phase]
      ensures old(now - start < dwell) ==> unchanged(this, message)
    {
      if now - start >= dwell {
        dwell := DrawDwell(draw);
        start := restart;
        phase := Toggle(phase);
        message.Send(phase);
        published := published + [phase];
      }
    }

    /** `waitForGreen`: receive until a green arrives. A green must already
        be pending; that stands for blocking until the cycle loop sends one.
        The receives take exactly the pending messages up to and including
        the first green, which are at most two, and leave the rest. */
    method WaitForGreen()
      requires Valid()
      requires Green in message.Pending()
      modifies message
      ensures Valid()
      ensures var k := FirstGreen(old(message.Pending()));
        && message.Pending() == old(message.Pending())[k + 1..]
        && message.queue == old(message.queue)[..|old(message.queue)| - (k + 1)]
      ensures |old(message.queue)| - |message.queue| <= 2
    {
      ghost var pending, deque := message.Pending(), message.queue;
      ghost var k := FirstGreen(pending);
      assert k <= 1 by {
        PendingConsecutive();
        GreenWithinTwo(pending, |published| - |pending|);
      }
      var got := message.Receive();
      ghost var taken := 1;
      while got != Green
        invariant 1 <= taken <= k + 1
        invariant got == deque[|deque| - taken]
        invariant message.queue == deque[..|deque| - taken]
        decreases k + 1 - taken
      {
        DeliveriesAt(deque, taken - 1);
        assert taken <= k;
        got := message.Receive();
        taken := taken + 1;
      }
      DeliveriesAt(deque, taken - 1);
      assert taken == k + 1;
      DeliveriesOfPrefix(deque, taken);
    }
  }
  /** A light starts red; each time its dwell runs out a pass of the cycle
      loop flips it. After two flips, green then red are pending, and a wait
      for green takes the older message, the green one, and leaves the red
      one for the next receive. */
  method TwoFlipsThenWait(t0: int, first: nat, second: nat, third: nat)
    returns (initial: Phase, current: Phase, left: seq<Phase>)
    ensures initial == Red && current == Red && left == [Red]
  {
    var light := new TrafficLight();
    initial := light.GetCurrentPhase();
    light.BeginCycle(t0, first);
    var t1 := t0 + DrawDwell(first);
    light.Tick(t1, t1, second);
    var t2 := t1 + DrawDwell(second);
    light.Tick(t2, t2, third);
    current := light.GetCurrentPhase();
    light.WaitForGreen();
    left := light.message.queue;
  }
}
