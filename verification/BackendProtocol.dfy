/** The backend worker (src/backend.rs) as a transition system: any number of clients, one command channel,
    one reply channel of capacity one per request, and a shutdown message. The device is any function from its
    state and a command to a new state and a result. */
module BackendProtocol {

  datatype Message<C> = Command(id: nat, command: C) | Shutdown

  datatype Worker<C, R> = Ready | Serving(id: nat, command: C) | Replying(id: nat, result: R) | Gone

  /** A reply channel of capacity one. Its only sender travels with the command. */
  datatype Channel<R> = Channel(buffer: seq<R>, senderAlive: bool)

  datatype Client<R> = Waiting | Answered(result: R) | Stopped

  /** The `Backend` value. `Held`: its `worker` slot still has the join handle. `Joining`: `stop` has sent the shutdown
      and taken the handle, and waits for the thread. `Joined`: a `stop` has returned, so the slot is empty.
      `Released`: the value has been dropped, and its sender with it. */
  datatype Handle = Held | Joining | Joined | Released

  /** `history` lists everything the command channel accepted, `positions` says where each accepted request
      stands in it, and `taken` counts the commands the worker has received. */
  datatype System<D, C, R> = System(
    device: D,
    worker: Worker<C, R>,
    handle: Handle,
    queue: seq<Message<C>>,
    senders: nat,
    channels: map<nat, Channel<R>>,
    clients: map<nat, Client<R>>,
    submitted: map<nat, C>,
    history: seq<Message<C>>,
    positions: map<nat, nat>,
    taken: nat)

  type Device<!D, !C, !R> = (D, C) -> (D, R)

  /** The backend has just been started; it owns the one sender there is. */
  function Start<D, C, R>(device: D): System<D, C, R> {
    System(device, Ready, Held, [], 1, map[], map[], map[], [], map[], 0)
  }

  // ----- The sequential device -----

  /** The device after a sequence of messages, one after another. */
  function After<D, C, R>(exec: Device<D, C, R>, initial: D, messages: seq<Message<C>>): D {
    if messages == [] then initial
    else
      var before := After(exec, initial, messages[..|messages| - 1]);
      match messages[|messages| - 1]
      case Command(_, command) => exec(before, command).0
      case Shutdown => before
  }

  /** What the sequential device answers to the command at a position of the channel. */
  function ResultAt<D, C, R>(exec: Device<D, C, R>, initial: D, history: seq<Message<C>>, position: nat): R
    requires position < |history| && history[position].Command?
  {
    exec(After(exec, initial, history[..position]), history[position].command).1
  }

  // ----- Steps -----

  datatype Action<C> =
    | Submit(id: nat, command: C)    // a client sends a request
    | Stop                           // `stop`, from shutdown or drop, up to the join
    | Join                           // the join of `stop` returns
    | Release                        // the backend value and its sender are dropped
    | CloneSender
    | DropSender                     // one of the clones
    | Receive                        // the worker takes the next message, or finds the channel closed
    | Execute                        // the device call
    | Reply
    | Collect(id: nat)               // a client receives its reply, or finds its channel closed

  predicate WorkerStep<C>(action: Action<C>) {
    action.Receive? || action.Execute? || action.Reply?
  }

  predicate Internal<C>(action: Action<C>) {
    WorkerStep(action) || action.Collect?
  }

  function QueuedIds<C>(queue: seq<Message<C>>): set<nat> {
    set k | 0 <= k < |queue| && queue[k].Command? :: queue[k].id
  }

  /** Leaving the loop drops the receiver and with it every queued command and its reply sender. */
  function Exit<D, C, R>(s: System<D, C, R>): System<D, C, R> {
    s.(worker := Gone, queue := [],
       channels := map id | id in s.channels ::
         if id in QueuedIds(s.queue) then s.channels[id].(senderAlive := false) else s.channels[id])
  }

  /** Sending a shutdown; a worker that is gone does not receive it. */
  function Told<D, C, R>(s: System<D, C, R>): System<D, C, R> {
    if s.worker.Gone? then s else s.(queue := s.queue + [Shutdown], history := s.history + [Shutdown])
  }

  ghost predicate Next<D, C, R>(exec: Device<D, C, R>, s: System<D, C, R>, action: Action<C>, s': System<D, C, R>) {
    match action
    case Submit(id, command) =>
      && s.senders > 0 && id !in s.clients
      && s' == if s.worker.Gone?
               then s.(clients := s.clients[id := Stopped], submitted := s.submitted[id := command])
               else s.(queue := s.queue + [Command(id, command)],
                       channels := s.channels[id := Channel([], true)],
                       clients := s.clients[id := Waiting],
                       submitted := s.submitted[id := command],
                       history := s.history + [Command(id, command)],
                       positions := s.positions[id := |s.history|])
    case Stop =>
      && (s.handle.Held? || s.handle.Joined?)
      && s' == Told(s).(handle := if s.handle.Held? then Joining else Joined)
    case Join => s.handle.Joining? && s.worker.Gone? && s' == s.(handle := Joined)
    case Release => s.handle.Joined? && s.senders > 0 && s' == s.(handle := Released, senders := s.senders - 1)
    case CloneSender => s.senders > 0 && s' == s.(senders := s.senders + 1)
    case DropSender =>
      && s.senders > (if s.handle.Released? then 0 else 1)
      && s' == s.(senders := s.senders - 1)
    case Receive =>
      && s.worker.Ready?
      && (if s.queue == [] then s.senders == 0 && s' == Exit(s)
          else if s.queue[0].Shutdown? then s' == Exit(s.(queue := s.queue[1..]))
          else s' == s.(worker := Serving(s.queue[0].id, s.queue[0].command), queue := s.queue[1..], taken := s.taken + 1))
    case Execute =>
      && s.worker.Serving?
      && var (device, result) := exec(s.device, s.worker.command);
         s' == s.(device := device, worker := Replying(s.worker.id, result))
    case Reply =>
      && s.worker.Replying? && s.worker.id in s.channels
      && |s.channels[s.worker.id].buffer| < 1
      && s' == s.(worker := Ready,
                  channels := s.channels[s.worker.id :=
                    Channel(s.channels[s.worker.id].buffer + [s.worker.result], false)])
    case Collect(id) =>
      && id in s.clients && s.clients[id].Waiting? && id in s.channels
      && (if s.channels[id].buffer != []
          then s' == s.(clients := s.clients[id := Answered(s.channels[id].buffer[0])],
                        channels := s.channels[id := s.channels[id].(buffer := s.channels[id].buffer[1..])])
          else !s.channels[id].senderAlive && s' == s.(clients := s.clients[id := Stopped]))
  }

  // ----- The invariant -----

  function Replied<D, C, R>(s: System<D, C, R>): int {
    if s.worker.Serving? || s.worker.Replying? then s.taken - 1 else s.taken
  }

  function Executed<D, C, R>(s: System<D, C, R>): int {
    if s.worker.Serving? then s.taken - 1 else s.taken
  }

  ghost predicate QueueOk<D, C, R>(s: System<D, C, R>) {
    && s.taken <= |s.history|
    && (forall j | 0 <= j < s.taken :: s.history[j].Command?)
    && (!s.worker.Gone? ==> s.queue == s.history[s.taken..])
    && (s.worker.Gone? ==> s.queue == [])
    && (s.worker.Gone? ==> if s.taken < |s.history| then s.history[s.taken].Shutdown? else s.senders == 0)
  }

  ghost predicate WorkerOk<D, C, R>(exec: Device<D, C, R>, initial: D, s: System<D, C, R>)
    requires QueueOk(s)
  {
    && Replied(s) >= 0
    && s.device == After(exec, initial, s.history[..Executed(s)])
    && (s.worker.Serving? ==> s.history[s.taken - 1] == Command(s.worker.id, s.worker.command))
    && (s.worker.Replying? ==>
         && s.history[s.taken - 1].id == s.worker.id
         && s.worker.result == ResultAt(exec, initial, s.history, s.taken - 1))
  }

  ghost predicate Placed<D, C, R>(s: System<D, C, R>, id: nat)
    requires id in s.positions
  {
    && s.positions[id] < |s.history|
    && id in s.submitted && s.history[s.positions[id]] == Command(id, s.submitted[id])
    && id in s.clients && id in s.channels
  }

  /** The state of a client and its reply channel follows from its position in the channel. */
  ghost predicate ClientOk<D, C, R>(exec: Device<D, C, R>, initial: D, s: System<D, C, R>, id: nat)
    requires id in s.positions && Placed(s, id)
  {
    var j, channel, client := s.positions[id], s.channels[id], s.clients[id];
    if j < Replied(s) then
      var result := ResultAt(exec, initial, s.history, j);
      !channel.senderAlive &&
      ((client == Waiting && channel.buffer == [result]) || (client == Answered(result) && channel.buffer == []))
    else
      && channel.buffer == []
      && (if s.worker.Gone? then !channel.senderAlive && (client == Waiting || client == Stopped)
          else channel.senderAlive && client == Waiting)
  }

  ghost predicate Inv<D, C, R>(exec: Device<D, C, R>, initial: D, s: System<D, C, R>) {
    && QueueOk(s)
    && WorkerOk(exec, initial, s)
    && (forall j | 0 <= j < |s.history| && s.history[j].Command? ::
          s.history[j].id in s.positions && s.positions[s.history[j].id] == j)
    && (forall id | id in s.positions :: Placed(s, id) && ClientOk(exec, initial, s, id))
    && (forall id | id in s.clients && id !in s.positions :: s.clients[id] == Stopped && s.worker.Gone?)
  }

  lemma StartInv<D, C, R>(exec: Device<D, C, R>, initial: D)
    ensures Inv(exec, initial, Start(initial))
  {
  }

  // ----- Each step keeps the invariant -----

  /** Appending to the channel does not change what came before. */
  lemma ResultStable<D, C, R>(exec: Device<D, C, R>, initial: D, history: seq<Message<C>>, more: seq<Message<C>>, j: nat)
    requires j < |history| && history[j].Command?
    ensures ResultAt(exec, initial, history + more, j) == ResultAt(exec, initial, history, j)
  {
    assert (history + more)[..j] == history[..j];
  }

  lemma AppendKeepsWorker<D, C, R>(exec: Device<D, C, R>, initial: D, s: System<D, C, R>, s': System<D, C, R>, m: Message<C>)
    requires Inv(exec, initial, s) && !s.worker.Gone?
    requires s'.history == s.history + [m] && s'.queue == s.queue + [m]
    requires s'.device == s.device && s'.worker == s.worker && s'.taken == s.taken
    ensures QueueOk(s') && WorkerOk(exec, initial, s')
  {
    hide After, ResultAt, Placed, ClientOk;
    assert s'.history[s.taken..] == s.history[s.taken..] + [m];
    assert s'.history[..Executed(s)] == s.history[..Executed(s)];
    if s.worker.Replying? {
      ResultStable(exec, initial, s.history, [m], s.taken - 1);
    }
  }

  lemma AppendKeepsClient<D, C, R>(exec: Device<D, C, R>, initial: D, s: System<D, C, R>, s': System<D, C, R>, m: Message<C>, id: nat)
    requires Inv(exec, initial, s) && !s.worker.Gone? && id in s.positions
    requires s'.history == s.history + [m] && s'.worker == s.worker && s'.taken == s.taken
    requires id in s'.positions && s'.positions[id] == s.positions[id]
    requires id in s'.submitted && s'.submitted[id] == s.submitted[id]
    requires id in s'.clients && s'.clients[id] == s.clients[id]
    requires id in s'.channels && s'.channels[id] == s.channels[id]
    ensures Placed(s', id) && ClientOk(exec, initial, s', id)
  {
    assert Placed(s, id) && ClientOk(exec, initial, s, id);
    ResultStable(exec, initial, s.history, [m], s.positions[id]);
  }

  lemma RefusedKeeps<D, C, R>(exec: Device<D, C, R>, initial: D, s: System<D, C, R>, id: nat, command: C, s': System<D, C, R>)
    requires Inv(exec, initial, s) && Next(exec, s, Submit(id, command), s') && s.worker.Gone?
    ensures Inv(exec, initial, s')
  {
    hide After, ResultAt;
    forall i | i in s'.positions ensures Placed(s', i) && ClientOk(exec, initial, s', i) {
      assert Placed(s, i) && ClientOk(exec, initial, s, i);
    }
  }

  lemma SubmitKeeps<D, C, R>(exec: Device<D, C, R>, initial: D, s: System<D, C, R>, id: nat, command: C, s': System<D, C, R>)
    requires Inv(exec, initial, s) && Next(exec, s, Submit(id, command), s')
    ensures Inv(exec, initial, s')
  {
    hide After, ResultAt;
    if s.worker.Gone? {
      RefusedKeeps(exec, initial, s, id, command, s');
    } else {
      AppendKeepsWorker(exec, initial, s, s', Command(id, command));
      forall i | i in s'.positions ensures Placed(s', i) && ClientOk(exec, initial, s', i) {
        if i != id {
          assert Placed(s, i);
          AppendKeepsClient(exec, initial, s, s', Command(id, command), i);
        }
      }
    }
  }

  lemma StopKeeps<D, C, R>(exec: Device<D, C, R>, initial: D, s: System<D, C, R>, s': System<D, C, R>)
    requires Inv(exec, initial, s) && Next(exec, s, Stop, s')
    ensures Inv(exec, initial, s')
  {
    hide After, ResultAt, ClientOk;
    if !s.worker.Gone? {
      AppendKeepsWorker(exec, initial, s, s', Shutdown);
      forall i | i in s'.positions ensures Placed(s', i) && ClientOk(exec, initial, s', i) {
        assert Placed(s, i);
        AppendKeepsClient(exec, initial, s, s', Shutdown, i);
      }
    } else {
      SendersIrrelevant(exec, initial, s, s');
    }
  }

  /** A queued request loses its reply sender when the worker leaves; one already served does not. */
  lemma DroppedExactly<D, C, R>(s: System<D, C, R>, rest: seq<Message<C>>, id: nat)
    requires QueueOk(s) && s.worker.Ready? && id in s.positions && Placed(s, id)
    requires forall j | 0 <= j < |s.history| && s.history[j].Command? ::
               s.history[j].id in s.positions && s.positions[s.history[j].id] == j
    requires if s.queue == [] then rest == [] else s.queue[0].Shutdown? && rest == s.queue[1..]
    ensures id in QueuedIds(rest) <==> s.positions[id] >= s.taken
  {
    var j := s.positions[id];
    if j >= s.taken {
      assert s.queue[j - s.taken] == s.history[j];
      assert rest[j - s.taken - 1] == s.history[j];
    } else {
      forall k | 0 <= k < |rest| && rest[k].Command? ensures rest[k].id != id {
        assert rest[k] == s.queue[k + 1] == s.history[s.taken + 1 + k];
      }
    }
  }

  lemma ExitKeeps<D, C, R>(exec: Device<D, C, R>, initial: D, s: System<D, C, R>, s': System<D, C, R>)
    requires Inv(exec, initial, s) && Next(exec, s, Receive, s') && s'.worker.Gone?
    ensures Inv(exec, initial, s')
  {
    hide After, ResultAt, QueuedIds;
    var rest := if s.queue == [] then [] else s.queue[1..];
    forall i | i in s'.positions ensures Placed(s', i) && ClientOk(exec, initial, s', i) {
      assert Placed(s, i) && ClientOk(exec, initial, s, i);
      DroppedExactly(s, rest, i);
    }
  }

  lemma ReceiveKeeps<D, C, R>(exec: Device<D, C, R>, initial: D, s: System<D, C, R>, s': System<D, C, R>)
    requires Inv(exec, initial, s) && Next(exec, s, Receive, s')
    ensures Inv(exec, initial, s')
  {
    hide After, ResultAt, QueuedIds, ClientOk;
    if s'.worker.Gone? {
      ExitKeeps(exec, initial, s, s');
    } else {
      assert s.history[s.taken] == s.queue[0] && s.history[s.taken + 1..] == s.queue[1..];
      forall i | i in s'.positions ensures Placed(s', i) && ClientOk(exec, initial, s', i) {
        TakenKeepsClient(exec, initial, s, s', i);
      }
    }
  }

  lemma TakenKeepsClient<D, C, R>(exec: Device<D, C, R>, initial: D, s: System<D, C, R>, s': System<D, C, R>, id: nat)
    requires Inv(exec, initial, s) && Next(exec, s, Receive, s') && !s'.worker.Gone? && id in s.positions
    ensures Placed(s', id) && ClientOk(exec, initial, s', id)
  {
    hide After, ResultAt, QueuedIds;
    assert Placed(s, id) && ClientOk(exec, initial, s, id);
  }

  lemma ExecuteKeeps<D, C, R>(exec: Device<D, C, R>, initial: D, s: System<D, C, R>, s': System<D, C, R>)
    requires Inv(exec, initial, s) && Next(exec, s, Execute, s')
    ensures Inv(exec, initial, s')
  {
    assert s.history[..s.taken][..s.taken - 1] == s.history[..s.taken - 1];
    forall i | i in s'.positions ensures Placed(s', i) && ClientOk(exec, initial, s', i) {
      assert Placed(s, i) && ClientOk(exec, initial, s, i);
    }
  }

  lemma ReplyKeepsClient<D, C, R>(exec: Device<D, C, R>, initial: D, s: System<D, C, R>, s': System<D, C, R>, id: nat)
    requires Inv(exec, initial, s) && Next(exec, s, Reply, s') && id in s.positions
    ensures Placed(s', id) && ClientOk(exec, initial, s', id)
  {
    hide After, ResultAt;
    assert Placed(s, id) && ClientOk(exec, initial, s, id);
    assert id == s.worker.id <==> s.positions[id] == s.taken - 1;
  }

  lemma ReplyKeeps<D, C, R>(exec: Device<D, C, R>, initial: D, s: System<D, C, R>, s': System<D, C, R>)
    requires Inv(exec, initial, s) && Next(exec, s, Reply, s')
    ensures Inv(exec, initial, s')
  {
    hide After, ResultAt, ClientOk;
    forall i | i in s'.positions ensures Placed(s', i) && ClientOk(exec, initial, s', i) {
      ReplyKeepsClient(exec, initial, s, s', i);
    }
  }

  lemma CollectKeepsClient<D, C, R>(exec: Device<D, C, R>, initial: D, s: System<D, C, R>, collector: nat, s': System<D, C, R>, id: nat)
    requires Inv(exec, initial, s) && Next(exec, s, Collect(collector), s') && id in s.positions
    ensures Placed(s', id) && ClientOk(exec, initial, s', id)
  {
    hide After, ResultAt;
    assert Placed(s, id) && ClientOk(exec, initial, s, id);
  }

  lemma CollectKeeps<D, C, R>(exec: Device<D, C, R>, initial: D, s: System<D, C, R>, id: nat, s': System<D, C, R>)
    requires Inv(exec, initial, s) && Next(exec, s, Collect(id), s')
    ensures Inv(exec, initial, s')
  {
    hide After, ResultAt, ClientOk;
    assert WorkerOk(exec, initial, s');
    forall i | i in s'.positions ensures Placed(s', i) && ClientOk(exec, initial, s', i) {
      CollectKeepsClient(exec, initial, s, id, s', i);
    }
  }

  lemma StepKeepsInv<D, C, R>(exec: Device<D, C, R>, initial: D, s: System<D, C, R>, action: Action<C>, s': System<D, C, R>)
    requires Inv(exec, initial, s) && Next(exec, s, action, s')
    ensures Inv(exec, initial, s')
  {
    match action
    case Submit(id, command) => SubmitKeeps(exec, initial, s, id, command, s');
    case Stop => StopKeeps(exec, initial, s, s');
    case Join => SendersIrrelevant(exec, initial, s, s');
    case Release => SendersIrrelevant(exec, initial, s, s');
    case CloneSender => SendersIrrelevant(exec, initial, s, s');
    case DropSender => SendersIrrelevant(exec, initial, s, s');
    case Receive => ReceiveKeeps(exec, initial, s, s');
    case Execute => ExecuteKeeps(exec, initial, s, s');
    case Reply => ReplyKeeps(exec, initial, s, s');
    case Collect(id) => CollectKeeps(exec, initial, s, id, s');
  }

  lemma SendersIrrelevant<D, C, R>(exec: Device<D, C, R>, initial: D, s: System<D, C, R>, s': System<D, C, R>)
    requires Inv(exec, initial, s) && s' == s.(senders := s'.senders, handle := s'.handle)
    requires s.senders > 0 || s'.senders == s.senders
    ensures Inv(exec, initial, s')
  {
    forall i | i in s'.positions ensures Placed(s', i) && ClientOk(exec, initial, s', i) {
      assert Placed(s, i) && ClientOk(exec, initial, s, i);
    }
  }

  // ----- Runs -----

  ghost predicate IsRun<D, C, R>(exec: Device<D, C, R>, initial: D, states: seq<System<D, C, R>>, actions: seq<Action<C>>) {
    && |states| == |actions| + 1
    && states[0] == Start(initial)
    && forall k | 0 <= k < |actions| :: Next(exec, states[k], actions[k], states[k + 1])
  }

  lemma {:induction false} RunsKeepInv<D, C, R>(exec: Device<D, C, R>, initial: D, states: seq<System<D, C, R>>, actions: seq<Action<C>>, k: nat)
    requires IsRun(exec, initial, states, actions) && k < |states|
    ensures Inv(exec, initial, states[k])
  {
    if k == 0 {
      StartInv(exec, initial);
    } else {
      RunsKeepInv(exec, initial, states, actions, k - 1);
      StepKeepsInv(exec, initial, states[k - 1], actions[k - 1], states[k]);
    }
  }

  // ----- What clients can rely on -----

  ghost predicate BeforeShutdown<C>(history: seq<Message<C>>, position: nat)
    requires position < |history|
  {
    forall j | 0 <= j <= position :: history[j].Command?
  }

  /** The one outcome a request can have: the sequential device's answer at its position in the channel if it was
      accepted before any shutdown, and BackendStopped otherwise. */
  ghost function Outcome<D, C, R>(exec: Device<D, C, R>, initial: D, s: System<D, C, R>, id: nat): Client<R>
    requires id in s.positions ==> Placed(s, id)
  {
    if id in s.positions && BeforeShutdown(s.history, s.positions[id])
    then Answered(ResultAt(exec, initial, s.history, s.positions[id]))
    else Stopped
  }

  /** Linearisability over all interleavings: in every reachable state every client that has an outcome has that
      one, and the command at its position is its own. */
  lemma Linearisable<D, C, R>(exec: Device<D, C, R>, initial: D, states: seq<System<D, C, R>>, actions: seq<Action<C>>, k: nat, id: nat)
    requires IsRun(exec, initial, states, actions) && k < |states| && id in states[k].clients
    ensures id in states[k].positions ==> Placed(states[k], id)
    ensures !states[k].clients[id].Waiting? ==> states[k].clients[id] == Outcome(exec, initial, states[k], id)
  {
    RunsKeepInv(exec, initial, states, actions, k);
    var s := states[k];
    if id in s.positions {
      assert Placed(s, id) && ClientOk(exec, initial, s, id);
    }
  }

  /** The channel only grows, requests keep their positions, and a request submitted later
      stands after everything the channel had accepted before. */
  ghost predicate Extends<D, C, R>(s: System<D, C, R>, s': System<D, C, R>) {
    && s.history <= s'.history
    && (forall id | id in s.clients :: id in s'.clients)
    && (forall id | id in s.positions :: id in s'.positions && s'.positions[id] == s.positions[id])
    && (forall later | later in s'.positions && later !in s.positions && later !in s.clients ::
          s'.positions[later] >= |s.history|)
    && (forall id | id in s.clients && id in s'.positions :: id in s.positions)
  }

  lemma StepExtends<D, C, R>(exec: Device<D, C, R>, s: System<D, C, R>, action: Action<C>, s': System<D, C, R>)
    requires Next(exec, s, action, s') && forall i | i in s.positions :: i in s.clients
    ensures Extends(s, s')
  {
    hide QueuedIds, Told;
    ToldExtends(s);
  }

  lemma ToldExtends<D, C, R>(s: System<D, C, R>)
    ensures s.history <= Told(s).history && Told(s).positions == s.positions && Told(s).clients == s.clients
  {
  }

  lemma ExtendsTransitive<D, C, R>(a: System<D, C, R>, b: System<D, C, R>, c: System<D, C, R>)
    requires Extends(a, b) && Extends(b, c)
    ensures Extends(a, c)
  {
    assert a.history == b.history[..|a.history|] && b.history == c.history[..|b.history|];
    forall later | later in c.positions && later !in a.positions && later !in a.clients
      ensures c.positions[later] >= |a.history|
    {
      if later in b.positions {
        assert c.positions[later] == b.positions[later];
      } else {
        assert later !in b.clients;
      }
    }
    forall id | id in a.clients && id in c.positions ensures id in a.positions {
      assert id in b.clients;
      assert id in b.positions;
    }
  }

  /** Positions respect real time. */
  lemma {:induction false} RealTimeOrder<D, C, R>(exec: Device<D, C, R>, initial: D, states: seq<System<D, C, R>>, actions: seq<Action<C>>, j: nat, k: nat)
    requires IsRun(exec, initial, states, actions) && j <= k < |states|
    ensures Extends(states[j], states[k])
    ensures forall earlier, later | earlier in states[j].positions && later in states[k].positions && later !in states[j].clients ::
              earlier in states[k].positions && states[k].positions[earlier] < states[k].positions[later]
    decreases k - j
  {
    if j < k {
      RealTimeOrder(exec, initial, states, actions, j, k - 1);
      RunsKeepInv(exec, initial, states, actions, k - 1);
      var s := states[k - 1];
      assert forall i | i in s.positions :: Placed(s, i);
      StepExtends(exec, s, actions[k - 1], states[k]);
      ExtendsTransitive(states[j], states[k - 1], states[k]);
    }
    RunsKeepInv(exec, initial, states, actions, j);
    LaterStandsAfter(states[j], states[k]);
  }

  lemma LaterStandsAfter<D, C, R>(s: System<D, C, R>, s': System<D, C, R>)
    requires Extends(s, s') && forall i | i in s.positions :: Placed(s, i)
    ensures forall earlier, later | earlier in s.positions && later in s'.positions && later !in s.clients ::
              earlier in s'.positions && s'.positions[earlier] < s'.positions[later]
  {
    forall earlier, later | earlier in s.positions && later in s'.positions && later !in s.clients
      ensures earlier in s'.positions && s'.positions[earlier] < s'.positions[later]
    {
      assert Placed(s, earlier);
      assert later in s.positions ==> Placed(s, later);
    }
  }

  ghost predicate Enabled<D(!new), C(!new), R(!new)>(exec: Device<D, C, R>, s: System<D, C, R>, action: Action<C>) {
    exists s' :: Next(exec, s, action, s')
  }

  /** Each reply channel is sent to at most once, so the worker never blocks on a reply. */
  lemma ReplyNeverBlocks<D, C, R>(exec: Device<D, C, R>, initial: D, states: seq<System<D, C, R>>, actions: seq<Action<C>>, k: nat)
    requires IsRun(exec, initial, states, actions) && k < |states| && states[k].worker.Replying?
    ensures states[k].worker.id in states[k].channels && states[k].channels[states[k].worker.id].buffer == []
  {
    RunsKeepInv(exec, initial, states, actions, k);
    var s := states[k];
    assert Placed(s, s.worker.id) && ClientOk(exec, initial, s, s.worker.id);
  }

  // ----- Every request is answered, whatever else is sent -----

  /** How many steps of the worker settle what stands at a position of the channel: three for each message up to
      it, less what is done already. */
  function StepsTo<D, C, R>(s: System<D, C, R>, position: nat): nat {
    if s.worker.Gone? || position < Replied(s) then 0
    else 3 * (position - s.taken + 1) + (match s.worker case Serving(_, _) => 2 case Replying(_, _) => 1 case _ => 0)
  }

  /** The steps of the worker that settle a client's request. */
  function Due<D, C, R>(s: System<D, C, R>, id: nat): nat {
    if id in s.positions then StepsTo(s, s.positions[id]) else 0
  }

  function WorkerSteps<C>(actions: seq<Action<C>>): nat {
    if actions == [] then 0
    else WorkerSteps(actions[..|actions| - 1]) + if WorkerStep(actions[|actions| - 1]) then 1 else 0
  }

  /** The positions of the worker's own steps in a sequence of actions. */
  ghost function WorkerPositions<C>(actions: seq<Action<C>>): set<nat> {
    set k: nat | k < |actions| && (actions[k] == Receive || actions[k] == Execute || actions[k] == Reply)
  }

  lemma {:induction false} WorkerStepsCounted<C>(actions: seq<Action<C>>)
    ensures WorkerSteps(actions) == |WorkerPositions(actions)|
  {
    if actions == [] {
      assert WorkerPositions(actions) == {};
    } else {
      var n := |actions| - 1;
      WorkerStepsCounted(actions[..n]);
      assert WorkerPositions(actions) == WorkerPositions(actions[..n]) + if WorkerStep(actions[n]) then {n} else {};
    }
  }

  /** Each step of the worker brings every unsettled position nearer, and no other step moves it away. */
  lemma StepTowards<D, C, R>(exec: Device<D, C, R>, s: System<D, C, R>, action: Action<C>, s': System<D, C, R>, position: nat)
    requires Next(exec, s, action, s')
    ensures if WorkerStep(action) && StepsTo(s, position) > 0 then StepsTo(s', position) < StepsTo(s, position)
            else StepsTo(s', position) == StepsTo(s, position)
  {
  }

  lemma {:induction false} StepsAddUp<D, C, R>(exec: Device<D, C, R>, initial: D, states: seq<System<D, C, R>>, actions: seq<Action<C>>, j: nat, k: nat, position: nat)
    requires IsRun(exec, initial, states, actions) && j <= k < |states|
    ensures StepsTo(states[k], position) == 0
            || StepsTo(states[k], position) + WorkerSteps(actions[j..k]) <= StepsTo(states[j], position)
    decreases k - j
  {
    hide Next, StepsTo;
    if j < k {
      StepsAddUp(exec, initial, states, actions, j, k - 1, position);
      assert Next(exec, states[k - 1], actions[k - 1], states[k]);
      StepTowards(exec, states[k - 1], actions[k - 1], states[k], position);
      assert actions[j..k][..k - j - 1] == actions[j..k - 1];
    }
  }

  /** That is at most three steps for each message still queued and two for the one in hand. */
  lemma DueIsBounded<D, C, R>(exec: Device<D, C, R>, initial: D, s: System<D, C, R>, id: nat)
    requires Inv(exec, initial, s)
    ensures Due(s, id) <= 3 * |s.queue| + 2
  {
    hide After, ResultAt, ClientOk;
    if id in s.positions {
      assert Placed(s, id);
    }
  }

  function WorkerNext<D, C, R>(s: System<D, C, R>): Action<C> {
    match s.worker case Serving(_, _) => Execute case Replying(_, _) => Reply case _ => Receive
  }

  /** While anything in the channel is unsettled the worker can step. */
  lemma WorkerCanStep<D(!new), C(!new), R(!new)>(exec: Device<D, C, R>, initial: D, s: System<D, C, R>, position: nat)
    requires Inv(exec, initial, s) && position < |s.history| && StepsTo(s, position) > 0
    ensures WorkerStep(WorkerNext(s)) && Enabled(exec, s, WorkerNext(s))
  {
    if s.worker.Serving? {
      var (device, result) := exec(s.device, s.worker.command);
      assert Next(exec, s, Execute, s.(device := device, worker := Replying(s.worker.id, result)));
    } else if s.worker.Replying? {
      assert Placed(s, s.worker.id) && ClientOk(exec, initial, s, s.worker.id);
      assert Next(exec, s, Reply, s.(worker := Ready,
        channels := s.channels[s.worker.id := Channel(s.channels[s.worker.id].buffer + [s.worker.result], false)]));
    } else if s.queue[0].Shutdown? {
      assert Next(exec, s, Receive, Exit(s.(queue := s.queue[1..])));
    } else {
      assert Next(exec, s, Receive,
        s.(worker := Serving(s.queue[0].id, s.queue[0].command), queue := s.queue[1..], taken := s.taken + 1));
    }
  }

  /** A waiting client can collect exactly when its request is settled. */
  lemma SettledCollects<D(!new), C(!new), R(!new)>(exec: Device<D, C, R>, initial: D, s: System<D, C, R>, id: nat)
    requires Inv(exec, initial, s) && id in s.clients && s.clients[id].Waiting?
    ensures Enabled(exec, s, Collect(id)) <==> Due(s, id) == 0
  {
    hide After, ResultAt;
    assert Placed(s, id) && ClientOk(exec, initial, s, id);
    if s.channels[id].buffer != [] {
      assert Next(exec, s, Collect(id), s.(clients := s.clients[id := Answered(s.channels[id].buffer[0])],
        channels := s.channels[id := s.channels[id].(buffer := s.channels[id].buffer[1..])]));
    } else if !s.channels[id].senderAlive {
      assert Next(exec, s, Collect(id), s.(clients := s.clients[id := Stopped]));
    }
  }

  /** What it then gets is its outcome. */
  lemma CollectGivesOutcome<D, C, R>(exec: Device<D, C, R>, initial: D, s: System<D, C, R>, id: nat, s': System<D, C, R>)
    requires Inv(exec, initial, s) && Next(exec, s, Collect(id), s') && (id in s.positions ==> Placed(s, id))
    ensures id in s'.clients && s'.clients[id] == Outcome(exec, initial, s, id)
  {
    hide After, ResultAt;
    assert Placed(s, id) && ClientOk(exec, initial, s, id);
  }

  /** Later traffic does not change an outcome. */
  lemma OutcomeStable<D, C, R>(exec: Device<D, C, R>, initial: D, s: System<D, C, R>, s': System<D, C, R>, id: nat)
    requires Extends(s, s') && id in s.clients
    requires (id in s.positions ==> Placed(s, id)) && (id in s'.positions ==> Placed(s', id))
    ensures Outcome(exec, initial, s', id) == Outcome(exec, initial, s, id)
  {
    hide After, ResultAt;
    if id in s.positions {
      var j, more := s.positions[id], s'.history[|s.history|..];
      assert s'.history == s.history + more;
      ResultStable(exec, initial, s.history, more, j);
    }
  }

  /** Nobody is stranded, whatever the other clients send meanwhile. Once the worker has made the steps that were due
      when we looked, the client has its outcome or can collect it at once, and the outcome is the one it had then. */
  lemma NobodyStranded<D(!new), C(!new), R(!new)>(exec: Device<D, C, R>, initial: D, states: seq<System<D, C, R>>, actions: seq<Action<C>>, j: nat, k: nat, id: nat)
    requires IsRun(exec, initial, states, actions) && j <= k < |states| && id in states[j].clients
    requires WorkerSteps(actions[j..k]) >= Due(states[j], id)
    ensures id in states[k].clients
    ensures (id in states[j].positions ==> Placed(states[j], id)) && (id in states[k].positions ==> Placed(states[k], id))
    ensures Outcome(exec, initial, states[k], id) == Outcome(exec, initial, states[j], id)
    ensures states[k].clients[id] == Outcome(exec, initial, states[k], id)
            || (states[k].clients[id].Waiting? && Enabled(exec, states[k], Collect(id)))
    ensures forall s' | Next(exec, states[k], Collect(id), s') :: s'.clients[id] == Outcome(exec, initial, states[k], id)
  {
    hide Next, Inv, Outcome;
    RunsKeepInv(exec, initial, states, actions, j);
    RunsKeepInv(exec, initial, states, actions, k);
    RealTimeOrder(exec, initial, states, actions, j, k);
    BothPlaced(exec, initial, states[j], states[k], id);
    OutcomeStable(exec, initial, states[j], states[k], id);
    if id in states[j].positions {
      StepsAddUp(exec, initial, states, actions, j, k, states[j].positions[id]);
    }
    if states[k].clients[id].Waiting? {
      SettledCollects(exec, initial, states[k], id);
      forall s' | Next(exec, states[k], Collect(id), s')
        ensures id in s'.clients && s'.clients[id] == Outcome(exec, initial, states[k], id) {
        CollectGivesOutcome(exec, initial, states[k], id, s');
      }
    } else {
      Linearisable(exec, initial, states, actions, k, id);
      NothingToCollect(exec, states[k], id);
    }
  }

  lemma BothPlaced<D, C, R>(exec: Device<D, C, R>, initial: D, s: System<D, C, R>, s': System<D, C, R>, id: nat)
    requires Inv(exec, initial, s) && Inv(exec, initial, s')
    ensures (id in s.positions ==> Placed(s, id)) && (id in s'.positions ==> Placed(s', id))
  {
  }

  lemma NothingToCollect<D(!new), C(!new), R(!new)>(exec: Device<D, C, R>, s: System<D, C, R>, id: nat)
    requires id in s.clients && !s.clients[id].Waiting?
    ensures !Enabled(exec, s, Collect(id))
  {
  }

  lemma DecidedStays<D, C, R>(exec: Device<D, C, R>, s: System<D, C, R>, action: Action<C>, s': System<D, C, R>, id: nat)
    requires Next(exec, s, action, s') && id in s.clients && !s.clients[id].Waiting?
    ensures id in s'.clients && s'.clients[id] == s.clients[id]
  {
  }

  /** A client has at most one outcome: it never changes. */
  lemma {:induction false} OneOutcome<D, C, R>(exec: Device<D, C, R>, initial: D, states: seq<System<D, C, R>>, actions: seq<Action<C>>, j: nat, k: nat, id: nat)
    requires IsRun(exec, initial, states, actions) && j <= k < |states|
    requires id in states[j].clients && !states[j].clients[id].Waiting?
    ensures id in states[k].clients && states[k].clients[id] == states[j].clients[id]
    decreases k - j
  {
    if j < k {
      OneOutcome(exec, initial, states, actions, j, k - 1, id);
      DecidedStays(exec, states[k - 1], actions[k - 1], states[k], id);
    }
  }

  /** A worker that has been sent a shutdown leaves its loop, whatever else is sent before or after it. */
  lemma WorkerLeaves<D, C, R>(exec: Device<D, C, R>, initial: D, states: seq<System<D, C, R>>, actions: seq<Action<C>>, j: nat, k: nat, position: nat)
    requires IsRun(exec, initial, states, actions) && j <= k < |states|
    requires position < |states[j].history| && states[j].history[position].Shutdown?
    requires WorkerSteps(actions[j..k]) >= StepsTo(states[j], position)
    ensures states[k].worker.Gone?
  {
    hide Next, ClientOk, WorkerOk, Placed;
    StepsAddUp(exec, initial, states, actions, j, k, position);
    RunsKeepInv(exec, initial, states, actions, k);
    RealTimeOrder(exec, initial, states, actions, j, k);
    assert states[k].history[position] == states[j].history[position];
  }

  // ----- Stopping -----

  /** A `stop` that has returned has joined the worker; until the backend is dropped it owns a sender. */
  ghost predicate HandleOk<D, C, R>(s: System<D, C, R>) {
    && (s.handle.Joined? || s.handle.Released? ==> s.worker.Gone?)
    && (!s.handle.Released? ==> s.senders > 0)
    && (s.handle.Joining? ==> s.worker.Gone? || Shutdown in s.history)
  }

  lemma {:induction false} RunsKeepHandle<D, C, R>(exec: Device<D, C, R>, initial: D, states: seq<System<D, C, R>>, actions: seq<Action<C>>, k: nat)
    requires IsRun(exec, initial, states, actions) && k < |states|
    ensures HandleOk(states[k])
  {
    if k > 0 {
      RunsKeepHandle(exec, initial, states, actions, k - 1);
      assert Next(exec, states[k - 1], actions[k - 1], states[k]);
    }
  }

  /** `stop` sends and then joins. Whatever is sent around it, the join is possible once the worker has made the steps
      that were due for the shutdown, and it stays possible until it happens. */
  lemma StopReturns<D(!new), C(!new), R(!new)>(exec: Device<D, C, R>, initial: D, states: seq<System<D, C, R>>, actions: seq<Action<C>>, j: nat, k: nat)
    requires IsRun(exec, initial, states, actions) && j < k < |states| && actions[j].Stop?
    requires states[j + 1].history != [] ==>
               WorkerSteps(actions[j + 1..k]) >= StepsTo(states[j + 1], |states[j + 1].history| - 1)
    ensures states[k].worker.Gone?
    ensures states[k].handle.Joining? ==> Enabled(exec, states[k], Join)
  {
    assert Next(exec, states[j], actions[j], states[j + 1]);
    if states[j].worker.Gone? {
      GoneStays(exec, initial, states, actions, j, k);
    } else {
      WorkerLeaves(exec, initial, states, actions, j + 1, k, |states[j + 1].history| - 1);
    }
    if states[k].handle.Joining? {
      assert Next(exec, states[k], Join, states[k].(handle := Joined));
    }
  }

  lemma {:induction false} GoneStays<D, C, R>(exec: Device<D, C, R>, initial: D, states: seq<System<D, C, R>>, actions: seq<Action<C>>, j: nat, k: nat)
    requires IsRun(exec, initial, states, actions) && j <= k < |states| && states[j].worker.Gone?
    ensures states[k].worker.Gone? && states[k].history == states[j].history && states[k].device == states[j].device
    decreases k - j
  {
    if j < k {
      GoneStays(exec, initial, states, actions, j, k - 1);
      assert Next(exec, states[k - 1], actions[k - 1], states[k]);
    }
  }

  lemma {:induction false} JoinedStays<D, C, R>(exec: Device<D, C, R>, initial: D, states: seq<System<D, C, R>>, actions: seq<Action<C>>, j: nat, k: nat)
    requires IsRun(exec, initial, states, actions) && j <= k < |states|
    requires states[j].handle.Joined? || states[j].handle.Released?
    ensures states[k].handle.Joined? || states[k].handle.Released?
    decreases k - j
  {
    if j < k {
      JoinedStays(exec, initial, states, actions, j, k - 1);
      assert Next(exec, states[k - 1], actions[k - 1], states[k]);
    }
  }

  /** After the join of a `stop` the worker is gone for good and there is nothing left to join. A later `stop`, as `drop`
      makes one after `shutdown`, is possible until the backend is dropped, changes nothing at all, and does not wait. */
  lemma SecondStopIsHarmless<D(!new), C(!new), R(!new)>(exec: Device<D, C, R>, initial: D, states: seq<System<D, C, R>>, actions: seq<Action<C>>, j: nat, k: nat)
    requires IsRun(exec, initial, states, actions) && j < k < |states| && actions[j].Join?
    ensures states[k].worker.Gone? && (states[k].handle.Joined? || states[k].handle.Released?)
    ensures states[k].handle.Joined? ==> Enabled(exec, states[k], Stop)
    ensures forall s' | Next(exec, states[k], Stop, s') :: s' == states[k]
    ensures !Enabled(exec, states[k], Join)
  {
    assert Next(exec, states[j], actions[j], states[j + 1]);
    JoinedStays(exec, initial, states, actions, j + 1, k);
    RunsKeepHandle(exec, initial, states, actions, k);
    if states[k].handle.Joined? {
      assert Next(exec, states[k], Stop, states[k]);
    }
  }

  /** Clients are never held back: whoever has a sender can send, clone it or give it up, and the backend value can be
      stopped and, once joined, dropped. */
  lemma ClientsAreFree<D(!new), C(!new), R(!new)>(exec: Device<D, C, R>, initial: D, states: seq<System<D, C, R>>, actions: seq<Action<C>>, k: nat, id: nat, command: C)
    requires IsRun(exec, initial, states, actions) && k < |states|
    ensures Enabled(exec, states[k], Submit(id, command)) <==> states[k].senders > 0 && id !in states[k].clients
    ensures Enabled(exec, states[k], CloneSender) <==> states[k].senders > 0
    ensures Enabled(exec, states[k], DropSender) <==> states[k].senders > (if states[k].handle.Released? then 0 else 1)
    ensures Enabled(exec, states[k], Stop) <==> states[k].handle.Held? || states[k].handle.Joined?
    ensures Enabled(exec, states[k], Release) <==> states[k].handle.Joined?
  {
    var s := states[k];
    RunsKeepHandle(exec, initial, states, actions, k);
    if s.senders > 0 && id !in s.clients {
      SubmitPossible(exec, s, id, command);
    }
    if s.handle.Held? || s.handle.Joined? {
      assert Next(exec, s, Stop, Told(s).(handle := if s.handle.Held? then Joining else Joined));
    }
    if s.handle.Joined? {
      assert Next(exec, s, Release, s.(handle := Released, senders := s.senders - 1));
    }
    if s.senders > 0 {
      assert Next(exec, s, CloneSender, s.(senders := s.senders + 1));
      if s.senders > (if s.handle.Released? then 0 else 1) {
        assert Next(exec, s, DropSender, s.(senders := s.senders - 1));
      }
    }
  }

  lemma SubmitPossible<D(!new), C(!new), R(!new)>(exec: Device<D, C, R>, s: System<D, C, R>, id: nat, command: C)
    requires s.senders > 0 && id !in s.clients
    ensures Enabled(exec, s, Submit(id, command))
  {
    if s.worker.Gone? {
      assert Next(exec, s, Submit(id, command),
        s.(clients := s.clients[id := Stopped], submitted := s.submitted[id := command]));
    } else {
      assert Next(exec, s, Submit(id, command),
        s.(queue := s.queue + [Command(id, command)], channels := s.channels[id := Channel([], true)],
           clients := s.clients[id := Waiting], submitted := s.submitted[id := command],
           history := s.history + [Command(id, command)], positions := s.positions[id := |s.history|]));
    }
  }

  // ----- How much is left to do -----

  function WaitingIds<D, C, R>(s: System<D, C, R>): set<nat> {
    set id | id in s.clients && s.clients[id].Waiting?
  }

  function Work<D, C, R>(s: System<D, C, R>): nat {
    4 * |s.queue| + |WaitingIds(s)| +
    match s.worker case Gone => 0 case Ready => 1 case Replying(_, _) => 2 case Serving(_, _) => 3
  }

  lemma SameWaiting<D, C, R>(s: System<D, C, R>, s': System<D, C, R>)
    requires s'.clients == s.clients
    ensures WaitingIds(s') == WaitingIds(s)
  {
  }

  lemma DecidedWaiting<D, C, R>(s: System<D, C, R>, s': System<D, C, R>, id: nat, outcome: Client<R>)
    requires s'.clients == s.clients[id := outcome] && !outcome.Waiting?
    ensures WaitingIds(s') == WaitingIds(s) - {id}
  {
  }

  lemma MoreWaiting<D, C, R>(s: System<D, C, R>, s': System<D, C, R>, id: nat)
    requires s'.clients == s.clients[id := Waiting]
    ensures WaitingIds(s') == WaitingIds(s) + {id}
  {
  }

  /** Every step of the worker or of a waiting client uses up work. */
  lemma InternalStepsDecrease<D, C, R>(exec: Device<D, C, R>, s: System<D, C, R>, action: Action<C>, s': System<D, C, R>)
    requires Next(exec, s, action, s') && Internal(action)
    ensures Work(s') < Work(s)
  {
    if action.Collect? {
      assert action.id in WaitingIds(s);
      DecidedWaiting(s, s', action.id, s'.clients[action.id]);
    } else {
      hide WaitingIds;
      SameWaiting(s, s');
    }
  }

  /** The work an action can bring in: a request or a shutdown. */
  function Brought<C>(action: Action<C>): nat {
    match action case Submit(_, _) => 5 case Stop => 4 case _ => 0
  }

  lemma OtherStepsBring<D, C, R>(exec: Device<D, C, R>, s: System<D, C, R>, action: Action<C>, s': System<D, C, R>)
    requires Next(exec, s, action, s') && !Internal(action)
    ensures Work(s') <= Work(s) + Brought(action)
  {
    hide WaitingIds;
    if action.Submit? {
      if s.worker.Gone? {
        DecidedWaiting(s, s', action.id, Stopped);
      } else {
        MoreWaiting(s, s', action.id);
      }
    } else {
      SameWaiting(s, s');
    }
  }

  function InternalSteps<C>(actions: seq<Action<C>>): nat {
    if actions == [] then 0
    else InternalSteps(actions[..|actions| - 1]) + if Internal(actions[|actions| - 1]) then 1 else 0
  }

  function AllBrought<C>(actions: seq<Action<C>>): nat {
    if actions == [] then 0
    else AllBrought(actions[..|actions| - 1]) + Brought(actions[|actions| - 1])
  }

  ghost function InternalPositions<C>(actions: seq<Action<C>>): set<nat> {
    set k: nat | k < |actions| && (actions[k].Receive? || actions[k].Execute? || actions[k].Reply? || actions[k].Collect?)
  }

  ghost function SubmitPositions<C>(actions: seq<Action<C>>): set<nat> {
    set k: nat | k < |actions| && actions[k].Submit?
  }

  ghost function StopPositions<C>(actions: seq<Action<C>>): set<nat> {
    set k: nat | k < |actions| && actions[k].Stop?
  }

  lemma {:induction false} InternalStepsCounted<C>(actions: seq<Action<C>>)
    ensures InternalSteps(actions) == |InternalPositions(actions)|
  {
    if actions == [] {
      assert InternalPositions(actions) == {};
    } else {
      var n, init := |actions| - 1, actions[..|actions| - 1];
      InternalStepsCounted(init);
      assert InternalPositions(actions) == InternalPositions(init) + if Internal(actions[n]) then {n} else {};
    }
  }

  lemma SubmitsGrow<C>(init: seq<Action<C>>, last: Action<C>)
    ensures |SubmitPositions(init + [last])| == |SubmitPositions(init)| + if last.Submit? then 1 else 0
  {
    assert SubmitPositions(init + [last]) == SubmitPositions(init) + if last.Submit? then {|init|} else {};
  }

  lemma StopsGrow<C>(init: seq<Action<C>>, last: Action<C>)
    ensures |StopPositions(init + [last])| == |StopPositions(init)| + if last.Stop? then 1 else 0
  {
    assert StopPositions(init + [last]) == StopPositions(init) + if last.Stop? then {|init|} else {};
  }

  lemma {:induction false} BroughtCounted<C>(actions: seq<Action<C>>)
    ensures AllBrought(actions) == 5 * |SubmitPositions(actions)| + 4 * |StopPositions(actions)|
  {
    if actions == [] {
      assert SubmitPositions(actions) == {} && StopPositions(actions) == {};
    } else {
      hide SubmitPositions, StopPositions;
      var init, last := actions[..|actions| - 1], actions[|actions| - 1];
      BroughtCounted(init);
      SubmitsGrow(init, last);
      StopsGrow(init, last);
      assert actions == init + [last];
    }
  }

  /** In every run, whatever the interleaving, each step of the worker and of a waiting client is paid for
      by a request or a shutdown that somebody sent. */
  lemma {:induction false} InternalRunsAreShort<D, C, R>(exec: Device<D, C, R>, states: seq<System<D, C, R>>, actions: seq<Action<C>>)
    requires |states| == |actions| + 1
    requires forall k | 0 <= k < |actions| :: Next(exec, states[k], actions[k], states[k + 1])
    ensures InternalSteps(actions) + Work(states[|actions|]) <= Work(states[0]) + AllBrought(actions)
    decreases |actions|
  {
    if actions != [] {
      var n := |actions| - 1;
      InternalRunsAreShort(exec, states[..n + 1], actions[..n]);
      if Internal(actions[n]) {
        InternalStepsDecrease(exec, states[n], actions[n], states[n + 1]);
      } else {
        OtherStepsBring(exec, states[n], actions[n], states[n + 1]);
      }
    }
  }

  /** The step that is possible while a client waits or a shutdown is pending. */
  function Useful<D, C, R>(s: System<D, C, R>, id: nat): Action<C> {
    if s.worker.Gone? || (s.worker.Ready? && s.queue == []) then Collect(id) else WorkerNext(s)
  }

  lemma UsefulEnabled<D(!new), C(!new), R(!new)>(exec: Device<D, C, R>, initial: D, s: System<D, C, R>, id: nat)
    requires Inv(exec, initial, s)
    requires (id in s.clients && s.clients[id].Waiting?) || (!s.worker.Gone? && Shutdown in s.history)
    ensures Internal(Useful(s, id)) && Enabled(exec, s, Useful(s, id))
  {
    hide Next, ClientOk, After, ResultAt;
    if s.worker.Serving? || s.worker.Replying? {
      WorkerCanStep(exec, initial, s, s.taken - 1);
    } else if s.worker.Ready? && s.queue != [] {
      WorkerCanStep(exec, initial, s, s.taken);
    } else {
      if !s.worker.Gone? {
        assert s.history[s.taken..] == [];
        assert Shutdown !in s.history;
      }
      assert id in s.positions && Placed(s, id);
      SettledCollects(exec, initial, s, id);
    }
  }

  ghost predicate Quiescent<D(!new), C(!new), R(!new)>(exec: Device<D, C, R>, s: System<D, C, R>) {
    forall action: Action<C> | Internal(action) :: !Enabled(exec, s, action)
  }

  /** In particular, when the worker and the clients can do no more, every client has its outcome, and a worker
      that was told to shut down has left its loop. */
  lemma QuietMeansDone<D(!new), C(!new), R(!new)>(exec: Device<D, C, R>, initial: D, states: seq<System<D, C, R>>, actions: seq<Action<C>>, k: nat)
    requires IsRun(exec, initial, states, actions) && k < |states| && Quiescent(exec, states[k])
    ensures forall id | id in states[k].clients ::
              && (id in states[k].positions ==> Placed(states[k], id))
              && states[k].clients[id] == Outcome(exec, initial, states[k], id)
    ensures Shutdown in states[k].history ==> states[k].worker.Gone?
  {
    var s := states[k];
    RunsKeepInv(exec, initial, states, actions, k);
    forall id | id in s.clients
      ensures (id in s.positions ==> Placed(s, id)) && s.clients[id] == Outcome(exec, initial, s, id)
    {
      if s.clients[id].Waiting? {
        UsefulEnabled(exec, initial, s, id);
      }
      Linearisable(exec, initial, states, actions, k, id);
    }
    if Shutdown in s.history && !s.worker.Gone? {
      UsefulEnabled(exec, initial, s, 0);
    }
  }

  // ----- The worker's loop on its own -----

  /** The loop over the messages a channel holds: it answers commands in order until a shutdown,
      and drops what is left. */
  method RunWorker<D, C, R>(exec: Device<D, C, R>, initial: D, channel: seq<Message<C>>)
    returns (device: D, replies: seq<(nat, R)>, dropped: seq<Message<C>>)
    ensures |replies| <= |channel|
    ensures forall j | 0 <= j < |replies| ::
              channel[j].Command? && replies[j] == (channel[j].id, ResultAt(exec, initial, channel, j))
    ensures device == After(exec, initial, channel[..|replies|])
    ensures if Shutdown in channel
            then |replies| < |channel| && channel[|replies|].Shutdown? && dropped == channel[|replies| + 1..]
            else |replies| == |channel| && dropped == []
  {
    var queue := channel;
    device, replies := initial, [];
    while queue != []
      invariant |replies| <= |channel| && queue == channel[|replies|..]
      invariant forall j | 0 <= j < |replies| ::
                  channel[j].Command? && replies[j] == (channel[j].id, ResultAt(exec, initial, channel, j))
      invariant device == After(exec, initial, channel[..|replies|])
      decreases |queue|
    {
      var message := queue[0];
      queue := queue[1..];
      if message.Shutdown? {
        return device, replies, queue;
      }
      assert channel[..|replies| + 1][..|replies|] == channel[..|replies|];
      var (next, result) := exec(device, message.command);
      device, replies := next, replies + [(message.id, result)];
    }
    dropped := [];
  }
}
