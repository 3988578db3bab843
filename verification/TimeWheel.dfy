/**
 cthrift/cthrift_svr.cc and cthrift_svr.h: the time wheel that closes idle connections. A connection's entry lives
 as long as some bucket holds it, and shuts the connection down when the last bucket lets it go.
 */
module TimeWheel {
  /** A connection object; muduo brings each up once and down at most once. */
  type Conn = nat

  const GRID_NUM: nat := 4

  datatype Event = Up(conn: Conn) | Down(conn: Conn) | Message(conn: Conn) | Kick

  /** The callbacks' shared state: the circular buffer, the connections seen, those up, and those whose socket is connected. */
  datatype Wheel = Wheel(buckets: seq<set<Conn>>, seen: set<Conn>, open: set<Conn>, connected: set<Conn>) {

    predicate Valid() {
      && |buckets| == GRID_NUM
      && (forall i | 0 <= i < GRID_NUM :: buckets[i] <= seen)
      && connected <= open <= seen
    }

    /** The connection's context can still reach its entry. */
    predicate Held(c: Conn) {
      exists i | 0 <= i < |buckets| :: c in buckets[i]
    }

    predicate Legal(e: Event) {
      match e
      case Up(c) => c !in seen
      case Down(c) => c in open
      case Message(c) => c in open
      case Kick => true
    }

    /** back().insert(entry) */
    function InsertBack(c: Conn): Wheel
      requires Valid()
    {
      this.(buckets := buckets[GRID_NUM - 1 := buckets[GRID_NUM - 1] + {c}])
    }

    /** push_back on the full circular buffer: the front bucket goes. */
    function Rotated(): Wheel
      requires Valid()
    {
      this.(buckets := buckets[1..] + [{}])
    }

    /** The connections shut down by a kick: entries only the front bucket held, of connections still connected. */
    function Expiring(): set<Conn>
      requires Valid()
    {
      set c | c in buckets[0] && !Rotated().Held(c) && c in connected
    }

    function Step(e: Event): Wheel
      requires Valid() && Legal(e)
    {
      match e
      case Up(c) => InsertBack(c).(seen := seen + {c}, open := open + {c}, connected := connected + {c})
      case Down(c) => this.(open := open - {c}, connected := connected - {c})
      case Message(c) => if Held(c) then InsertBack(c) else this
      case Kick => Rotated().(connected := connected - Expiring())
    }

    /** The connections an event shuts down. */
    function Shut(e: Event): set<Conn>
      requires Valid()
    {
      if e.Kick? then Expiring() else {}
    }
  }

  lemma StepValid(w: Wheel, e: Event)
    requires w.Valid() && w.Legal(e)
    ensures w.Step(e).Valid()
  {
  }

  /** What a connection thread starts with: as many empty buckets as the grid has. */
  const Initial: Wheel := Wheel([{}, {}, {}, {}], {}, {}, {})

  // ----- the callbacks -----

  class ConnThread {
    var buckets: seq<set<Conn>>
    var currConnNum: int
    ghost var seen: set<Conn>
    ghost var open: set<Conn>
    var connected: set<Conn>

    ghost function State(): Wheel
      reads this
    {
      Wheel(buckets, seen, open, connected)
    }

    ghost predicate Valid()
      reads this
    {
      State().Valid() && currConnNum == |open|
    }

    constructor ConnThreadInit()
      ensures Valid() && State() == Initial
    {
      buckets := seq(GRID_NUM, i => {});
      currConnNum, seen, open, connected := 0, {}, {}, {};
    }

    method OnConn(c: Conn, up: bool)
      requires Valid() && State().Legal(if up then Up(c) else Down(c))
      modifies this
      ensures Valid() && State() == old(State()).Step(if up then Up(c) else Down(c))
    {
      if up {
        currConnNum := currConnNum + 1;
        buckets := buckets[GRID_NUM - 1 := buckets[GRID_NUM - 1] + {c}];
        seen, open, connected := seen + {c}, open + {c}, connected + {c};
      } else {
        OpenNotEmpty(c, open);
        if 0 < currConnNum {
          currConnNum := currConnNum - 1;
        }
        open, connected := open - {c}, connected - {c};
      }
    }

    /** The touch at the start of OnMsg: false when the entry has expired. */
    method Touch(c: Conn) returns (alive: bool)
      requires Valid() && State().Legal(Message(c))
      modifies this
      ensures Valid() && State() == old(State()).Step(Message(c))
      ensures alive == old(State()).Held(c)
    {
      alive := false;
      var i := 0;
      while i < |buckets|
        invariant i <= |buckets| && alive == exists k | 0 <= k < i :: c in buckets[k]
      {
        alive := alive || c in buckets[i];
        i := i + 1;
      }
      if alive {
        buckets := buckets[GRID_NUM - 1 := buckets[GRID_NUM - 1] + {c}];
      }
    }

    /** Dropping the front bucket runs the destructors of the entries nothing else holds. */
    method TimewheelKick() returns (shut: set<Conn>)
      requires Valid()
      modifies this
      ensures Valid() && State() == old(State()).Step(Kick) && shut == old(State()).Shut(Kick)
    {
      var dropped := buckets[0];
      buckets := buckets[1..] + [{}];
      shut := set c | c in dropped && !(exists i | 0 <= i < |buckets| :: c in buckets[i]) && c in connected;
      connected := connected - shut;
    }
  }

  lemma OpenNotEmpty(c: Conn, open: set<Conn>)
    requires c in open
    ensures |open| > 0
  {
    assert |open - {c}| + 1 == |open|;
  }

  // ----- the counter the wheel implements -----

  /** Kicks since the last activity, by the youngest bucket that holds the entry; 4 once none does. */
  function Idle(buckets: seq<set<Conn>>, c: Conn): (n: nat)
    ensures n <= |buckets|
    ensures n < |buckets| <==> exists i | 0 <= i < |buckets| :: c in buckets[i]
  {
    if buckets == [] || c in buckets[|buckets| - 1] then 0 else 1 + Idle(buckets[..|buckets| - 1], c)
  }

  /** The specification: one counter per connection. */
  datatype Counters = Counters(idle: map<Conn, nat>, open: set<Conn>, connected: set<Conn>) {
    function Step(e: Event): Counters
      requires e.Message? ==> e.conn in idle
    {
      match e
      case Up(c) => Counters(idle[c := 0], open + {c}, connected + {c})
      case Down(c) => this.(open := open - {c}, connected := connected - {c})
      case Message(c) => if idle[c] < GRID_NUM then this.(idle := idle[c := 0]) else this
      case Kick =>
        Counters(map c | c in idle :: if idle[c] < GRID_NUM then idle[c] + 1 else GRID_NUM,
                 open, connected - Shut(Kick))
    }

    function Shut(e: Event): set<Conn> {
      if e.Kick? then set c | c in idle && idle[c] == GRID_NUM - 1 && c in connected else {}
    }
  }

  function Abstract(w: Wheel): Counters
    requires w.Valid()
  {
    Counters(map c | c in w.seen :: Idle(w.buckets, c), w.open, w.connected)
  }

  lemma {:induction false} IdleInsertBack(buckets: seq<set<Conn>>, c: Conn, d: Conn)
    requires buckets != []
    ensures var n := |buckets| - 1;
            Idle(buckets[n := buckets[n] + {c}], d) == if d == c then 0 else Idle(buckets, d)
  {
    var n := |buckets| - 1;
    assert buckets[n := buckets[n] + {c}][..n] == buckets[..n];
  }

  lemma {:induction false} IdleRotated(buckets: seq<set<Conn>>, c: Conn)
    requires buckets != []
    ensures Idle(buckets[1..] + [{}], c) == if Idle(buckets, c) < |buckets| then Idle(buckets, c) + 1 else |buckets|
  {
    var n := |buckets| - 1;
    assert (buckets[1..] + [{}])[..n] == buckets[1..];
    IdleWithoutFront(buckets, c);
  }

  lemma {:induction false} IdleWithoutFront(buckets: seq<set<Conn>>, c: Conn)
    requires buckets != []
    ensures Idle(buckets[1..], c) == if Idle(buckets, c) < |buckets| - 1 then Idle(buckets, c) else |buckets| - 1
  {
    var n := |buckets| - 1;
    if n > 0 && c !in buckets[n] {
      assert buckets[1..][..n - 1] == buckets[..n][1..];
      IdleWithoutFront(buckets[..n], c);
    }
  }

  lemma InsertRefines(w: Wheel, c: Conn, seen: set<Conn>)
    requires w.Valid() && seen == w.seen + {c}
    ensures (map d | d in seen :: Idle(w.InsertBack(c).buckets, d))
         == (map d | d in w.seen :: Idle(w.buckets, d))[c := 0]
  {
    hide Idle;
    forall d | d in seen
      ensures Idle(w.InsertBack(c).buckets, d) == if d == c then 0 else Idle(w.buckets, d)
    {
      IdleInsertBack(w.buckets, c, d);
    }
  }

  lemma KickRefines(w: Wheel)
    requires w.Valid()
    ensures w.Expiring() == Abstract(w).Shut(Kick)
    ensures Abstract(w.Step(Kick)) == Abstract(w).Step(Kick)
  {
    hide Idle;
    var a := Abstract(w);
    forall c
      ensures Idle(w.Rotated().buckets, c) == if Idle(w.buckets, c) < GRID_NUM then Idle(w.buckets, c) + 1 else GRID_NUM
    {
      IdleRotated(w.buckets, c);
    }
    forall c
      ensures c in w.Expiring() <==> c in a.Shut(Kick)
    {
      LastBucketOnly(w, c);
    }
    assert Abstract(w.Step(Kick)).idle == a.Step(Kick).idle;
  }

  /** An entry only the front bucket holds has seen three kicks. */
  lemma LastBucketOnly(w: Wheel, c: Conn)
    requires w.Valid()
    ensures c in w.buckets[0] && !w.Rotated().Held(c) <==> Idle(w.buckets, c) == GRID_NUM - 1
  {
    IdleRotated(w.buckets, c);
    if c in w.buckets[0] {
      assert Idle(w.buckets, c) < GRID_NUM;
    }
  }

  /** Every event does to the wheel what it does to the counters, and shuts down the same connections. */
  lemma WheelRefinesCounters(w: Wheel, e: Event)
    requires w.Valid() && w.Legal(e)
    ensures w.Step(e).Valid()
    ensures Abstract(w.Step(e)) == Abstract(w).Step(e)
    ensures w.Shut(e) == Abstract(w).Shut(e)
  {
    StepValid(w, e);
    match e
    case Up(c) => UpRefines(w, c);
    case Message(c) => MessageRefines(w, c);
    case Down(c) =>
    case Kick => KickRefines(w);
  }

  lemma UpRefines(w: Wheel, c: Conn)
    requires w.Valid() && w.Legal(Up(c))
    ensures w.Step(Up(c)).Valid() && Abstract(w.Step(Up(c))) == Abstract(w).Step(Up(c))
  {
    StepValid(w, Up(c));
    hide Idle;
    InsertRefines(w, c, w.seen + {c});
  }

  lemma MessageRefines(w: Wheel, c: Conn)
    requires w.Valid() && w.Legal(Message(c))
    ensures w.Step(Message(c)).Valid() && Abstract(w.Step(Message(c))) == Abstract(w).Step(Message(c))
  {
    StepValid(w, Message(c));
    HeldIffIdle(w, c);
    hide Idle, Wheel.Held, Wheel.Rotated, Wheel.Expiring, Counters.Shut;
    assert c in w.seen && Abstract(w).idle[c] == Idle(w.buckets, c);
    if w.Held(c) {
      InsertRefines(w, c, w.seen);
      assert w.Step(Message(c)) == w.InsertBack(c);
    } else {
      assert w.Step(Message(c)) == w;
    }
  }

  lemma HeldIffIdle(w: Wheel, c: Conn)
    requires w.Valid()
    ensures w.Held(c) <==> Idle(w.buckets, c) < 4
  {
  }

  // ----- whole runs -----

  function Run(w: Wheel, events: seq<Event>): Wheel
    requires w.Valid() && LegalRun(w, events)
    decreases events
  {
    if events == [] then w else
      StepValid(w, events[0]);
      Run(w.Step(events[0]), events[1..])
  }

  predicate LegalRun(w: Wheel, events: seq<Event>)
    requires w.Valid()
    decreases events
  {
    events == [] || (w.Legal(events[0]) && (StepValid(w, events[0]); LegalRun(w.Step(events[0]), events[1..])))
  }

  /** The counters after the same events; a message on a connection never seen is none. */
  function CountersRun(k: Counters, events: seq<Event>): Counters
    decreases |events|
  {
    if events == [] then k
    else
      var e := events[0];
      CountersRun(if e.Message? && e.conn !in k.idle then k else k.Step(e), events[1..])
  }

  /** Over every run the wheel holds exactly the entries whose counter has not reached four. */
  lemma {:induction false} RunRefinesCounters(w: Wheel, events: seq<Event>)
    requires w.Valid() && LegalRun(w, events)
    ensures var w', k := Run(w, events), CountersRun(Abstract(w), events);
            w'.Valid() && Abstract(w') == k && forall c | c in w'.seen :: w'.Held(c) <==> k.idle[c] < 4
    decreases |events|
  {
    if events == [] {
      forall c | c in w.seen
        ensures w.Held(c) <==> Abstract(w).idle[c] < 4
      {
        HeldIffIdle(w, c);
      }
    } else {
      hide Idle, Wheel.Held, Wheel.Rotated, Wheel.Expiring, Wheel.InsertBack, Counters.Shut;
      WheelRefinesCounters(w, events[0]);
      RunRefinesCounters(w.Step(events[0]), events[1..]);
    }
  }

  /** How many times a run shuts c down. */
  function ShutCount(w: Wheel, events: seq<Event>, c: Conn): nat
    requires w.Valid() && LegalRun(w, events)
    decreases events
  {
    if events == [] then 0 else
      StepValid(w, events[0]);
      (if c in w.Shut(events[0]) then 1 else 0) + ShutCount(w.Step(events[0]), events[1..], c)
  }

  function Kicks(events: seq<Event>): nat {
    if events == [] then 0 else (if events[0].Kick? then 1 else 0) + Kicks(events[1..])
  }

  /** No event touches c or takes it down. */
  predicate Untouched(events: seq<Event>, c: Conn) {
    forall k | 0 <= k < |events| :: events[k] != Message(c) && events[k] != Up(c) && events[k] != Down(c)
  }

  /**
   From any state and over any run without activity on c, c's entry is held exactly while fewer than four kicks have
   passed since its last activity, and a connected c is shut down once, at the fourth kick. Applied to every prefix
   of a run, this says when.
   */
  lemma {:induction false} IdleConnectionExpires(w: Wheel, events: seq<Event>, c: Conn)
    requires w.Valid() && LegalRun(w, events) && Untouched(events, c)
    requires w.Held(c) && c in w.connected
    ensures var w', total := Run(w, events), Idle(w.buckets, c) + Kicks(events);
            && w'.Valid()
            && (w'.Held(c) <==> total < 4)
            && ShutCount(w, events, c) == (if total < 4 then 0 else 1)
            && (c in w'.connected <==> total < 4)
    decreases |events|
  {
    HeldIffIdle(w, c);
    if events == [] {
      return;
    }
    var e, rest := events[0], events[1..];
    WheelRefinesCounters(w, e);
    var w' := w.Step(e);
    UntouchedStep(w, e, c);
    HeldIffIdle(w', c);
    if w'.Held(c) {
      IdleConnectionExpires(w', rest, c);
    } else {
      ExpiredForGood(w', rest, c);
    }
  }

  lemma UntouchedStep(w: Wheel, e: Event, c: Conn)
    requires w.Valid() && w.Legal(e) && w.Held(c) && c in w.connected && Untouched([e], c)
    ensures Idle(w.Step(e).buckets, c) == Idle(w.buckets, c) + if e.Kick? then 1 else 0
    ensures c in w.Shut(e) <==> e.Kick? && Idle(w.buckets, c) == 4 - 1
    ensures c in w.Step(e).connected <==> c !in w.Shut(e)
    ensures c in w.seen
  {
    assert [e][0] == e;
    assert c in w.seen;
    HeldIffIdle(w, c);
    WheelRefinesCounters(w, e);
    StepValid(w, e);
    hide Idle;
    assert c in w.Step(e).seen;
    assert Idle(w.Step(e).buckets, c) == Abstract(w.Step(e)).idle[c] == Abstract(w).Step(e).idle[c];
    assert Abstract(w).idle[c] == Idle(w.buckets, c);
  }

  /** An expired entry stays expired and its connection is not shut down again, even if messages arrive. */
  lemma {:induction false} ExpiredForGood(w: Wheel, events: seq<Event>, c: Conn)
    requires w.Valid() && LegalRun(w, events) && c in w.seen && !w.Held(c)
    ensures var w' := Run(w, events);
            w'.Valid() && !w'.Held(c) && ShutCount(w, events, c) == 0 && (c in w'.connected ==> c in w.connected)
    decreases |events|
  {
    if events != [] {
      var e := events[0];
      StepValid(w, e);
      ExpiredStep(w, e, c);
      ExpiredForGood(w.Step(e), events[1..], c);
    }
  }

  lemma ExpiredStep(w: Wheel, e: Event, c: Conn)
    requires w.Valid() && w.Legal(e) && c in w.seen && !w.Held(c)
    ensures w.Step(e).Valid() && !w.Step(e).Held(c) && c !in w.Shut(e) && c in w.Step(e).seen
    ensures c in w.Step(e).connected ==> c in w.connected
  {
    StepValid(w, e);
    WheelRefinesCounters(w, e);
    HeldIffIdle(w, c);
    HeldIffIdle(w.Step(e), c);
    hide Idle;
    assert Idle(w.Step(e).buckets, c) == Abstract(w.Step(e)).idle[c] == Abstract(w).Step(e).idle[c];
    assert Abstract(w).idle[c] == Idle(w.buckets, c);
  }

  /** A new connection, or a message on a live entry, starts the count afresh. */
  lemma ActivityResets(w: Wheel, e: Event, c: Conn)
    requires w.Valid() && w.Legal(e)
    requires e == Up(c) || (e == Message(c) && w.Held(c))
    ensures w.Step(e).Valid() && Idle(w.Step(e).buckets, c) == 0 && w.Step(e).Held(c)
    ensures e == Up(c) || c in w.connected ==> c in w.Step(e).connected
  {
    StepValid(w, e);
    IdleInsertBack(w.buckets, c, c);
    HeldIffIdle(w.Step(e), c);
  }

  /** After a connection's last activity it is kept for three kicks and shut down, once, by the fourth. */
  lemma ShutAtFourthKick(w: Wheel, activity: Event, events: seq<Event>, c: Conn)
    requires w.Valid() && w.Legal(activity)
    requires activity == Up(c) || (activity == Message(c) && w.Held(c) && c in w.connected)
    requires w.Step(activity).Valid() && LegalRun(w.Step(activity), events) && Untouched(events, c)
    ensures var w1 := w.Step(activity);
            && (Run(w1, events).Held(c) <==> Kicks(events) < 4)
            && ShutCount(w1, events, c) == (if Kicks(events) < 4 then 0 else 1)
  {
    ActivityResets(w, activity, c);
    IdleConnectionExpires(w.Step(activity), events, c);
  }

  /** Over every run, a connection that is open and still has its entry is connected. */
  lemma {:induction false} HeldOpenIsConnected(w: Wheel, events: seq<Event>)
    requires w.Valid() && LegalRun(w, events)
    requires forall c | c in w.open && w.Held(c) :: c in w.connected
    ensures forall c | c in Run(w, events).open && Run(w, events).Held(c) :: c in Run(w, events).connected
    decreases |events|
  {
    if events != [] {
      var e := events[0];
      StepValid(w, e);
      forall c | c in w.Step(e).open && w.Step(e).Held(c)
        ensures c in w.Step(e).connected
      {
        if c in w.seen && !w.Held(c) {
          ExpiredStep(w, e, c);
        }
      }
      HeldOpenIsConnected(w.Step(e), events[1..]);
    }
  }
}
