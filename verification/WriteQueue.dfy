// The outgoing write queue of a websocketpp connection (impl/connection_impl.hpp), shared by any number of
// threads.  Every section locked by m_write_lock, and every stretch between two of them, is one atomic
// action; the actions of all threads may interleave in any order.
module WriteQueue {
  import opened Bytes

  datatype Msg = Msg(header: seq<byte>, payload: seq<byte>, terminal: bool)

  /** The connection's fields; how many threads stand before each action that is not a fresh call; and the
      history: messages pushed, messages written without error, messages of writes that failed, and the buffers
      given to the transport. */
  datatype State = State(
    queue: seq<Msg>, current: seq<Msg>, buffer: seq<seq<byte>>, flag: bool, size: nat,
    deciders: nat,     // found needs_writing true, will dispatch write_frame
    pending: nat,      // dispatched write_frame calls that have not run
    builders: nat,     // left the locked section of write_frame with a batch
    outstanding: nat,  // transport writes whose completion handler has not run
    releasers: nat,    // past the checks of handle_write_frame, about to release the flag
    stopped: bool,     // terminate() was called by handle_write_frame
    pushed: seq<Msg>, completed: seq<Msg>, lost: seq<Msg>, given: seq<seq<byte>>)

  function Init(): State {
    State([], [], [], false, 0, 0, 0, 0, 0, 0, false, [], [], [], [])
  }

  datatype Action =
    | Push(m: Msg)          // the locked section of send, ping, pong and send_close_frame
    | Dispatch              // transport::dispatch(write_frame)
    | RunFrame              // the locked section of write_frame
    | StartWrite            // the rest of write_frame: fill the buffer, async_write
    | Complete(error: bool) // handle_write_frame up to its locked section
    | Release               // the locked section of handle_write_frame

  // ---------- what each action does ----------

  /** The messages one write takes: up to and including the first terminal one. */
  function Batch(queue: seq<Msg>): (b: seq<Msg>)
    ensures b <= queue && (queue != [] ==> b != [])
  {
    if queue == [] then [] else if queue[0].terminal then [queue[0]] else [queue[0]] + Batch(queue[1..])
  }

  /** Header and payload of every message, as separate buffers. */
  function Buffers(ms: seq<Msg>): seq<seq<byte>> {
    if ms == [] then [] else Buffers(ms[..|ms| - 1]) + [ms[|ms| - 1].header, ms[|ms| - 1].payload]
  }

  /** The buffers are the frames of the messages: for each its header, and then its payload. */
  predicate AreFrames(buffers: seq<seq<byte>>, ms: seq<Msg>) {
    && |buffers| == 2 * |ms|
    && forall i :: 0 <= i < |ms| ==> buffers[2 * i] == ms[i].header && buffers[2 * i + 1] == ms[i].payload
  }

  function PayloadTotal(ms: seq<Msg>): nat {
    if ms == [] then 0 else |ms[0].payload| + PayloadTotal(ms[1..])
  }

  predicate EndsTerminal(ms: seq<Msg>) {
    ms != [] && ms[|ms| - 1].terminal
  }

  predicate Enabled(s: State, a: Action) {
    match a
    case Push(_) => true
    case Dispatch => s.deciders > 0
    case RunFrame => s.pending > 0
    case StartWrite => s.builders > 0
    case Complete(_) => s.outstanding > 0
    case Release => s.releasers > 0
  }

  function Apply(s: State, a: Action): State
    requires Enabled(s, a)
  {
    match a
    case Push(m) => Pushed(s, m)
    case Dispatch => s.(deciders := s.deciders - 1, pending := s.pending + 1)
    case RunFrame => Framed(s.(pending := s.pending - 1))
    case StartWrite =>
      var buffer := s.buffer + Buffers(s.current);
      s.(buffer := buffer, builders := s.builders - 1, outstanding := s.outstanding + 1, given := s.given + buffer)
    case Complete(error) => Completed(s, error)
    case Release =>
      s.(flag := false, releasers := s.releasers - 1, deciders := s.deciders + if s.queue != [] then 1 else 0)
  }

  function Pushed(s: State, m: Msg): State {
    s.(queue := s.queue + [m], pushed := s.pushed + [m], size := (s.size + |m.payload|) % U64,
       deciders := s.deciders + if s.flag then 0 else 1)
  }

  function Framed(s: State): State {
    if s.flag then s
    else
      var b := Batch(s.queue);
      var rest := s.(queue := s.queue[|b|..], size := (s.size - PayloadTotal(b)) % U64, current := s.current + b);
      if rest.current == [] then rest else rest.(flag := true, builders := s.builders + 1)
  }

  function Completed(s: State, error: bool): State
    requires s.outstanding > 0
  {
    var stop := error || EndsTerminal(s.current);
    s.(buffer := [], current := [], outstanding := s.outstanding - 1,
       stopped := s.stopped || stop, releasers := s.releasers + if stop then 0 else 1,
       completed := if error then s.completed else s.completed + s.current,
       lost := if error then s.lost + s.current else s.lost)
  }

  // ---------- the invariant ----------

  /** No message but the last is terminal. */
  predicate TerminalLast(ms: seq<Msg>) {
    forall i :: 0 <= i < |ms| - 1 ==> !ms[i].terminal
  }

  /** What has been handed to the transport so far. */
  function Wire(s: State): seq<Msg> {
    s.completed + s.lost + if s.outstanding > 0 then s.current else []
  }

  /** Threads that own the write flag, a stopped connection counting as one. */
  function Holders(s: State): nat {
    s.builders + s.outstanding + s.releasers + if s.stopped then 1 else 0
  }

  ghost predicate Inv(s: State) {
    // conservation, in push order
    && s.pushed == s.completed + s.lost + s.current + s.queue
    // the flag has exactly one owner: one batch, one transport write, or one completion handler at a time
    && Holders(s) == (if s.flag then 1 else 0)
    && (s.current != [] <==> s.builders + s.outstanding > 0)
    && AreFrames(s.buffer, if s.outstanding > 0 then s.current else [])
    // the transport was given the frames of all messages it was ever given, in order
    && AreFrames(s.given, Wire(s))
    // the size is that of the queue
    && s.size == PayloadTotal(s.queue) % U64
    // no lost wakeup
    && (s.queue != [] ==> s.flag || s.deciders > 0 || s.pending > 0)
    // a terminal message, or an error, ends everything
    && TerminalLast(s.completed + s.lost + s.current)
    && (!s.stopped ==> s.lost == [] && !EndsTerminal(s.completed))
  }

  // ---------- each action keeps it ----------

  lemma {:induction false} TotalConcat(a: seq<Msg>, b: seq<Msg>)
    ensures PayloadTotal(a + b) == PayloadTotal(a) + PayloadTotal(b)
  {
    if a == [] {
      assert a + b == b;
    } else {
      assert (a + b)[1..] == a[1..] + b;
      TotalConcat(a[1..], b);
    }
  }

  lemma BatchOf(queue: seq<Msg>)
    ensures queue == Batch(queue) + queue[|Batch(queue)|..]
  {
  }

  lemma FramesJoin(a: seq<seq<byte>>, ms: seq<Msg>, b: seq<seq<byte>>, ns: seq<Msg>)
    requires AreFrames(a, ms) && AreFrames(b, ns)
    ensures AreFrames(a + b, ms + ns)
  {
    var all, both := a + b, ms + ns;
    forall i | 0 <= i < |both| ensures all[2 * i] == both[i].header && all[2 * i + 1] == both[i].payload {
      if i >= |ms| {
        var j := i - |ms|;
        assert all[2 * i] == b[2 * j] && all[2 * i + 1] == b[2 * j + 1];
      }
    }
  }

  lemma {:induction false} BuffersAreFrames(ms: seq<Msg>)
    ensures AreFrames(Buffers(ms), ms)
    decreases |ms|
  {
    if ms != [] {
      var n := |ms| - 1;
      BuffersAreFrames(ms[..n]);
      FramesJoin(Buffers(ms[..n]), ms[..n], [ms[n].header, ms[n].payload], [ms[n]]);
      assert ms == ms[..n] + [ms[n]];
    }
  }

  lemma StartKeeps(s: State)
    requires Inv(s) && s.builders > 0
    ensures Inv(Apply(s, StartWrite))
  {
    var t, sent := Apply(s, StartWrite), s.completed + s.lost;
    assert s.outstanding == 0 && s.buffer == [];
    AddNothing(sent);
    AddNothing(Buffers(s.current));
    BuffersAreFrames(s.current);
    FramesJoin(s.given, sent, Buffers(s.current), s.current);
    assert t.buffer == Buffers(s.current) && t.given == s.given + Buffers(s.current) && Wire(t) == sent + s.current;
  }

  lemma AddNothing<T>(a: seq<T>)
    ensures a + [] == a && [] + a == a
  {
  }

  /** A batch ends with the first terminal message, or else is the whole queue. */
  lemma {:induction false} BatchTerminal(queue: seq<Msg>)
    ensures TerminalLast(Batch(queue)) && (Batch(queue) == queue || EndsTerminal(Batch(queue)))
  {
    if queue != [] && !queue[0].terminal {
      BatchTerminal(queue[1..]);
    }
  }

  lemma PushKeeps(s: State, m: Msg)
    requires Inv(s)
    ensures Inv(Pushed(s, m))
  {
    TotalConcat(s.queue, [m]);
    assert PayloadTotal([m]) == |m.payload|;
  }

  lemma JoinTerminal(a: seq<Msg>, b: seq<Msg>)
    requires TerminalLast(a) && TerminalLast(b) && !EndsTerminal(a)
    ensures TerminalLast(a + b)
  {
  }

  lemma ModSub(x: nat, y: nat)
    ensures ((x + y) % U64 - x) % U64 == y % U64
  {
    var q := (x + y) / U64;
    assert x + y == q * U64 + (x + y) % U64;
    assert (x + y) % U64 - x == y - q * U64;
  }

  lemma SizeAfter(size: nat, b: seq<Msg>, rest: seq<Msg>)
    requires size == PayloadTotal(b + rest) % U64
    ensures (size - PayloadTotal(b)) % U64 == PayloadTotal(rest) % U64
  {
    TotalConcat(b, rest);
    ModSub(PayloadTotal(b), PayloadTotal(rest));
  }

  lemma FrameKeeps(s: State)
    requires Inv(s.(pending := s.pending + 1))
    ensures Inv(Framed(s))
  {
    if !s.flag {
      var b := Batch(s.queue);
      var rest := s.queue[|b|..];
      assert s.current == [] && s.lost == [];
      BatchOf(s.queue);
      NothingTaken(s.completed, b, rest);
      AddNothing(b);
      SizeAfter(s.size, b, rest);
      BatchTerminal(s.queue);
      JoinTerminal(s.completed, b);
    }
  }

  lemma NothingTaken(a: seq<Msg>, b: seq<Msg>, rest: seq<Msg>)
    ensures a + [] + [] == a && a + [] + ([] + b) == a + b && a + [] + [] + (b + rest) == a + b + rest
  {
  }

  lemma CompleteKeeps(s: State, error: bool)
    requires Inv(s) && s.outstanding > 0
    ensures Inv(Completed(s, error))
  {
    assert s.lost == [];
    NothingLost(s.completed, s.current);
    var t := Completed(s, error);
    assert t.completed + t.lost + t.current == s.completed + s.lost + s.current;
    assert Wire(t) == Wire(s);
    assert t.pushed == t.completed + t.lost + t.current + t.queue;
  }

  lemma NothingLost(a: seq<Msg>, b: seq<Msg>)
    ensures a + [] + b == a + b && a + ([] + b) + [] == a + b && (a + b) + [] + [] == a + b
  {
  }

  /** Every action of every thread keeps the invariant. */
  lemma StepKeeps(s: State, a: Action)
    requires Inv(s) && Enabled(s, a)
    ensures Inv(Apply(s, a))
  {
    match a
    case Push(m) => PushKeeps(s, m);
    case RunFrame => FrameKeeps(s.(pending := s.pending - 1));
    case Complete(error) => CompleteKeeps(s, error);
    case StartWrite => StartKeeps(s);
    case _ =>
  }

  // ---------- whole runs ----------

  /** The actions can happen in this order, in state s. */
  ghost predicate Possible(s: State, run: seq<Action>)
    decreases |run|
  {
    run == [] || (Enabled(s, run[0]) && Possible(Apply(s, run[0]), run[1..]))
  }

  ghost function After(s: State, run: seq<Action>): State
    requires Possible(s, run)
    decreases |run|
  {
    if run == [] then s else After(Apply(s, run[0]), run[1..])
  }

  lemma {:induction false} RunKeeps(s: State, run: seq<Action>)
    requires Inv(s) && Possible(s, run)
    ensures Inv(After(s, run))
    decreases |run|
  {
    if run != [] {
      StepKeeps(s, run[0]);
      RunKeeps(Apply(s, run[0]), run[1..]);
    }
  }

  /** In every interleaving: pushed messages are completed, in flight or queued, in push order; at most one
      transport write is outstanding; the size is the queue's; a non-empty queue has a writer on its way; and what
      the transport was given are the frames of a prefix of the pushed messages, header before payload. */
  lemma EveryInterleaving(run: seq<Action>)
    requires Possible(Init(), run)
    ensures var s := After(Init(), run);
      && s.pushed == s.completed + s.lost + s.current + s.queue
      && s.builders + s.outstanding + s.releasers <= 1
      && s.size == PayloadTotal(s.queue) % U64
      && (s.queue != [] ==> s.flag || s.deciders > 0 || s.pending > 0)
      && (s.outstanding > 0 ==> s.current != [] && AreFrames(s.buffer, s.current))
      && Wire(s) <= s.pushed && TerminalLast(Wire(s)) && AreFrames(s.given, Wire(s))
  {
    assert Inv(Init());
    RunKeeps(Init(), run);
    var s := After(Init(), run);
    assert Wire(s) <= s.completed + s.lost + s.current;
  }

  lemma WireGrows(s: State, a: Action)
    requires Inv(s) && Enabled(s, a)
    ensures Wire(s) <= Wire(Apply(s, a))
  {
    if a.Complete? {
      assert s.lost == [];
      NothingLost(s.completed, s.current);
    } else if a.StartWrite? {
      AddNothing(s.completed + s.lost);
    }
  }

  lemma {:induction false} WireGrowsInRun(s: State, run: seq<Action>)
    requires Inv(s) && Possible(s, run)
    ensures Wire(s) <= Wire(After(s, run))
    decreases |run|
  {
    if run != [] {
      StepKeeps(s, run[0]);
      WireGrows(s, run[0]);
      WireGrowsInRun(Apply(s, run[0]), run[1..]);
    }
  }

  lemma TerminalIsWhole(w: seq<Msg>, more: seq<Msg>)
    requires w <= more && EndsTerminal(w) && TerminalLast(more)
    ensures w == more
  {
    assert more[|w| - 1] == w[|w| - 1];
  }

  /** Once a terminal message has been handed to the transport, nothing else ever is. */
  lemma NothingAfterTerminal(s: State, run: seq<Action>)
    requires Inv(s) && Possible(s, run) && EndsTerminal(Wire(s))
    ensures Wire(After(s, run)) == Wire(s)
  {
    var s' := After(s, run);
    WireGrowsInRun(s, run);
    RunKeeps(s, run);
    assert Wire(s') <= s'.completed + s'.lost + s'.current;
    TerminalIsWhole(Wire(s), Wire(s'));
  }

  // ---------- draining ----------

  predicate Internal(a: Action) {
    !a.Push?
  }

  /** Work left: every internal action uses some up. */
  function Work(s: State): nat {
    6 * |s.queue| + 2 * s.deciders + s.pending + 5 * s.builders + 4 * s.outstanding + 3 * s.releasers
  }

  lemma WorkShrinks(s: State, a: Action)
    requires Inv(s) && Enabled(s, a) && Internal(a)
    ensures Work(Apply(s, a)) < Work(s)
  {
  }

  /** Without new messages every run is finite. */
  lemma {:induction false} RunsAreBounded(s: State, run: seq<Action>)
    requires Inv(s) && Possible(s, run) && forall i :: 0 <= i < |run| ==> Internal(run[i])
    ensures |run| <= Work(s)
    decreases |run|
  {
    if run != [] {
      StepKeeps(s, run[0]);
      WorkShrinks(s, run[0]);
      RunsAreBounded(Apply(s, run[0]), run[1..]);
    }
  }

  /** No thread has anything left to do. */
  ghost predicate Quiet(s: State) {
    forall a :: Internal(a) ==> !Enabled(s, a)
  }

  /** When everything has come to rest, either the connection was stopped, or every message pushed has been
      written, in order, and the flag is free again. */
  lemma RestMeansWritten(s: State)
    requires Inv(s) && Quiet(s)
    ensures s.stopped || (s.completed == s.pushed && s.queue == [] && !s.flag && s.size == 0)
  {
    assert !Enabled(s, Dispatch) && !Enabled(s, RunFrame) && !Enabled(s, StartWrite);
    assert !Enabled(s, Complete(false)) && !Enabled(s, Release);
    if !s.stopped {
      assert s.completed + s.lost + s.current + s.queue == s.completed;
    }
  }

  // ---------- the connection object ----------

  datatype MsgPtr = Null | Ptr(msg: Msg)

  lemma ModTwice(a: int, b: nat)
    ensures (a % U64 - b) % U64 == (a - b) % U64
  {
    var q := a / U64;
    assert a == q * U64 + a % U64;
    assert a - b == q * U64 + (a % U64 - b);
    ModShift(a % U64 - b, q);
  }

  lemma ModShift(x: int, q: int)
    ensures (q * U64 + x) % U64 == x % U64
  {
  }

  /** q split into the messages taken so far, the one in hand, and those left. */
  ghost predicate Taking(q: seq<Msg>, taken: seq<Msg>, next: MsgPtr, left: seq<Msg>) {
    match next
    case Null => q == taken + left && Batch(q) == taken
    case Ptr(m) => q == taken + [m] + left && Batch(q) == taken + Batch([m] + left)
  }

  function InHand(next: MsgPtr): seq<Msg> {
    if next.Ptr? then [next.msg] else []
  }

  lemma BatchFirst(m: Msg, left: seq<Msg>)
    ensures Batch([m] + left) == if m.terminal then [m] else [m] + Batch(left)
  {
    assert ([m] + left)[1..] == left;
  }

  /** The loop of write_frame puts the message in hand into the batch and pops another unless it is terminal. */
  lemma TakeNext(q: seq<Msg>, taken: seq<Msg>, m: Msg, left: seq<Msg>)
    requires Taking(q, taken, Ptr(m), left)
    ensures m.terminal || left == [] ==> Taking(q, taken + [m], Null, left)
    ensures !m.terminal && left != [] ==> Taking(q, taken + [m], Ptr(left[0]), left[1..])
  {
    BatchFirst(m, left);
    var more := taken + [m];
    if left == [] || m.terminal {
      assert more + left == taken + [m] + left;
    } else {
      assert left == [left[0]] + left[1..];
      assert more + [left[0]] + left[1..] == taken + [m] + left;
      assert taken + ([m] + Batch(left)) == more + Batch(left);
    }
  }

  lemma TotalSnoc(ms: seq<Msg>, m: Msg)
    ensures PayloadTotal(ms + [m]) == PayloadTotal(ms) + |m.payload|
  {
    TotalConcat(ms, [m]);
    assert PayloadTotal([m]) == |m.payload|;
  }

  /** ... with the buffer size reduced by everything popped. */
  ghost predicate TakingSized(q: seq<Msg>, size: nat, taken: seq<Msg>, next: MsgPtr, left: seq<Msg>, now: nat) {
    Taking(q, taken, next, left) && now == (size - PayloadTotal(taken + InHand(next))) % U64
  }

  lemma TakeFirst(q: seq<Msg>, size: nat)
    requires size < U64
    ensures q == [] ==> TakingSized(q, size, [], Null, q, size)
    ensures q != [] ==> TakingSized(q, size, [], Ptr(q[0]), q[1..], (size - |q[0].payload|) % U64)
  {
    if q != [] {
      assert q == [q[0]] + q[1..];
      TotalSnoc([], q[0]);
      assert [] + [q[0]] == [q[0]];
    }
  }

  /** The message the loop holds after m, what it then leaves in the queue, and the buffer size. */
  function HeldAfter(m: Msg, left: seq<Msg>): MsgPtr {
    if m.terminal || left == [] then Null else Ptr(left[0])
  }

  function LeftAfter(m: Msg, left: seq<Msg>): seq<Msg> {
    if m.terminal || left == [] then left else left[1..]
  }

  function SizeHeld(m: Msg, left: seq<Msg>, now: nat): nat {
    if m.terminal || left == [] then now else (now - |left[0].payload|) % U64
  }

  lemma TakeNextSized(q: seq<Msg>, size: nat, taken: seq<Msg>, m: Msg, left: seq<Msg>, now: nat)
    returns (more: seq<Msg>)
    requires TakingSized(q, size, taken, Ptr(m), left, now)
    ensures more == taken + [m]
    ensures TakingSized(q, size, more, HeldAfter(m, left), LeftAfter(m, left), SizeHeld(m, left, now))
  {
    TakeNext(q, taken, m, left);
    more := taken + [m];
    assert more + [] == more;
    if left != [] {
      ModTwice(size - PayloadTotal(more), |left[0].payload|);
      TotalSnoc(more, left[0]);
    }
  }

  lemma Joined(a: seq<Msg>, b: seq<Msg>, m: Msg)
    ensures (a + b) + [m] == a + (b + [m])
  {
  }

  lemma TakenAll(q: seq<Msg>, size: nat, taken: seq<Msg>, left: seq<Msg>, now: nat)
    requires TakingSized(q, size, taken, Null, left, now)
    ensures taken == Batch(q) && left == q[|taken|..] && now == (size - PayloadTotal(taken)) % U64
  {
    assert taken + [] == taken;
  }

  class Connection {
    var m_send_queue: seq<Msg>
    var m_current_msgs: seq<Msg>
    var m_send_buffer: seq<seq<byte>>
    var m_write_flag: bool
    var m_send_buffer_size: nat
    ghost var rest: State  // the threads' positions and the history

    ghost function Now(): State
      reads this
    {
      rest.(queue := m_send_queue, current := m_current_msgs, buffer := m_send_buffer, flag := m_write_flag,
            size := m_send_buffer_size)
    }

    constructor ()
      ensures Now() == Init() && Inv(Now())
    {
      m_send_queue, m_current_msgs, m_send_buffer, m_write_flag, m_send_buffer_size := [], [], [], false, 0;
      rest := Init();
    }

    method WritePush(m: Msg)
      modifies this`m_send_queue, this`m_send_buffer_size
      ensures m_send_queue == old(m_send_queue) + [m]
      ensures m_send_buffer_size == (old(m_send_buffer_size) + |m.payload|) % U64
    {
      m_send_buffer_size := (m_send_buffer_size + |m.payload|) % U64;
      m_send_queue := m_send_queue + [m];
    }

    method WritePop() returns (next: MsgPtr)
      modifies this`m_send_queue, this`m_send_buffer_size
      ensures next == if old(m_send_queue) == [] then Null else Ptr(old(m_send_queue)[0])
      ensures m_send_queue == if next.Null? then old(m_send_queue) else old(m_send_queue)[1..]
      ensures m_send_buffer_size
              == if next.Null? then old(m_send_buffer_size) else (old(m_send_buffer_size) - |next.msg.payload|) % U64
    {
      if m_send_queue == [] {
        return Null;
      }
      next := Ptr(m_send_queue[0]);
      m_send_buffer_size := (m_send_buffer_size - |next.msg.payload|) % U64;
      m_send_queue := m_send_queue[1..];
    }

    /** The locked section of send, ping, pong and send_close_frame. */
    method Send(m: Msg) returns (needsWriting: bool)
      requires Inv(Now())
      modifies this
      ensures Now() == Apply(old(Now()), Push(m)) && Inv(Now())
      ensures needsWriting == !m_write_flag
    {
      PushKeeps(Now(), m);
      WritePush(m);
      needsWriting := !m_write_flag && m_send_queue != [];
      rest := rest.(pushed := rest.pushed + [m], deciders := rest.deciders + if needsWriting then 1 else 0);
    }

    /** The locked section of write_frame: take a batch, unless a write is under way or nothing is queued. */
    method WriteFrame() returns (owner: bool)
      requires Inv(Now()) && Now().pending > 0
      modifies this
      ensures Now() == Apply(old(Now()), RunFrame) && Inv(Now())
      ensures owner <==> !old(m_write_flag) && old(m_send_queue) != []
      ensures owner ==> old(m_send_queue) == m_current_msgs + m_send_queue
                        && TerminalLast(m_current_msgs) && (m_send_queue == [] || EndsTerminal(m_current_msgs))
    {
      StepKeeps(Now(), RunFrame);
      BatchTerminal(m_send_queue);
      ghost var queue := m_send_queue;
      owner := TakeFrame();
      BatchOf(queue);
    }

    method TakeFrame() returns (owner: bool)
      requires Now().pending > 0 && m_send_buffer_size < U64 && (!m_write_flag ==> m_current_msgs == [])
      modifies this
      ensures Now() == Apply(old(Now()), RunFrame)
      ensures owner <==> !old(m_write_flag) && old(m_send_queue) != []
      ensures owner ==> m_current_msgs == Batch(old(m_send_queue))
                        && m_send_queue == old(m_send_queue)[|m_current_msgs|..]
    {
      rest := rest.(pending := rest.pending - 1);
      if m_write_flag {
        return false;
      }
      ghost var s := Now();
      ghost var taken := TakeBatch();
      assert m_current_msgs == s.current + taken && m_send_queue == s.queue[|taken|..];
      if m_current_msgs == [] {
        return false;
      }
      m_write_flag := true;
      rest := rest.(builders := rest.builders + 1);
      owner := true;
    }

    /** One round of the loop in write_frame. */
    method TakeOne(m: Msg) returns (next: MsgPtr)
      modifies this`m_send_queue, this`m_send_buffer_size, this`m_current_msgs
      ensures m_current_msgs == old(m_current_msgs) + [m]
      ensures next == HeldAfter(m, old(m_send_queue)) && m_send_queue == LeftAfter(m, old(m_send_queue))
      ensures m_send_buffer_size == SizeHeld(m, old(m_send_queue), old(m_send_buffer_size))
      ensures |m_send_queue| + |InHand(next)| <= old(|m_send_queue|)
    {
      m_current_msgs := m_current_msgs + [m];
      if !m.terminal {
        next := WritePop();
      } else {
        next := Null;
      }
    }

    method TakeBatch() returns (ghost taken: seq<Msg>)
      requires m_send_buffer_size < U64
      modifies this`m_send_queue, this`m_send_buffer_size, this`m_current_msgs
      ensures taken == Batch(old(m_send_queue)) && m_send_queue == old(m_send_queue)[|taken|..]
      ensures m_current_msgs == old(m_current_msgs) + taken
      ensures m_send_buffer_size == (old(m_send_buffer_size) - PayloadTotal(taken)) % U64
    {
      ghost var q, size, current := m_send_queue, m_send_buffer_size, m_current_msgs;
      taken := [];
      TakeFirst(q, size);
      var next := WritePop();
      while next.Ptr?
        invariant TakingSized(q, size, taken, next, m_send_queue, m_send_buffer_size)
        invariant m_current_msgs == current + taken
        decreases |m_send_queue| + |InHand(next)|
      {
        ghost var before := taken;
        taken := TakeNextSized(q, size, taken, next.msg, m_send_queue, m_send_buffer_size);
        Joined(current, before, next.msg);
        next := TakeOne(next.msg);
      }
      TakenAll(q, size, taken, m_send_queue, m_send_buffer_size);
    }

    /** The rest of write_frame, outside the lock: two buffers a message, and the transport write. */
    method StartWriting()
      requires Inv(Now()) && Now().builders > 0
      modifies this
      ensures Now() == Apply(old(Now()), StartWrite) && Inv(Now())
      ensures AreFrames(m_send_buffer, m_current_msgs)
    {
      StepKeeps(Now(), StartWrite);
      StartTransport();
    }

    method StartTransport()
      requires Now().builders > 0
      modifies this
      ensures Now() == Apply(old(Now()), StartWrite)
    {
      FillBuffer();
      rest := rest.(builders := rest.builders - 1, outstanding := rest.outstanding + 1,
                    given := rest.given + m_send_buffer);
    }

    method FillBuffer()
      modifies this`m_send_buffer
      ensures m_send_buffer == old(m_send_buffer) + Buffers(m_current_msgs)
    {
      ghost var base := m_send_buffer;
      for i := 0 to |m_current_msgs|
        invariant m_send_buffer == base + Buffers(m_current_msgs[..i])
      {
        var it := m_current_msgs[i];
        m_send_buffer := m_send_buffer + [it.header];
        m_send_buffer := m_send_buffer + [it.payload];
        assert m_current_msgs[..i + 1][..i] == m_current_msgs[..i];
      }
      assert m_current_msgs[..|m_current_msgs|] == m_current_msgs;
    }

    /** handle_write_frame up to its locked section; the last message of the batch is always there. */
    method HandleWriteFrame(error: bool) returns (goesOn: bool)
      requires Inv(Now()) && Now().outstanding > 0
      modifies this
      ensures Now() == Apply(old(Now()), Complete(error)) && Inv(Now())
      ensures goesOn <==> !error && !EndsTerminal(old(m_current_msgs))
    {
      StepKeeps(Now(), Complete(error));
      goesOn := FinishWrite(error);
    }

    method FinishWrite(error: bool) returns (goesOn: bool)
      requires Now().outstanding > 0 && m_current_msgs != []
      modifies this
      ensures Now() == Apply(old(Now()), Complete(error))
      ensures goesOn <==> !error && !EndsTerminal(old(m_current_msgs))
    {
      var terminal := m_current_msgs[|m_current_msgs| - 1].terminal;
      ghost var batch := m_current_msgs;
      m_send_buffer := [];
      m_current_msgs := [];
      goesOn := !error && !terminal;
      rest := rest.(outstanding := rest.outstanding - 1, stopped := rest.stopped || !goesOn,
                    releasers := rest.releasers + if goesOn then 1 else 0,
                    completed := if error then rest.completed else rest.completed + batch,
                    lost := if error then rest.lost + batch else rest.lost);
    }

    /** The locked section of handle_write_frame. */
    method ReleaseFlag() returns (needsWriting: bool)
      requires Inv(Now()) && Now().releasers > 0
      modifies this
      ensures Now() == Apply(old(Now()), Release) && Inv(Now())
      ensures needsWriting == (m_send_queue != [])
    {
      StepKeeps(Now(), Release);
      m_write_flag := false;
      needsWriting := m_send_queue != [];
      rest := rest.(releasers := rest.releasers - 1, deciders := rest.deciders + if needsWriting then 1 else 0);
    }

    /** Handing write_frame to the transport. */
    method DispatchFrame()
      requires Inv(Now()) && Now().deciders > 0
      modifies this
      ensures Now() == Apply(old(Now()), Dispatch) && Inv(Now())
    {
      StepKeeps(Now(), Dispatch);
      rest := rest.(deciders := rest.deciders - 1, pending := rest.pending + 1);
    }
  }
}
