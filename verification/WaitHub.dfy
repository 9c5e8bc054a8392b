/**
 The per-key wait/notify hub as interleaved atomic steps.

 A step is one critical section of the hub mutex, one critical section of a waiter's mutex, one channel operation,
 or one operation on the atomic waiter counter, which is updated outside the mutex. `Notify` holds the mutex while
 it goes through a key's waiters, so its iterations are separate steps during which no other step may take the
 mutex; `NotifyAll` and `Unblock` send after releasing it.
 */
module WaitHub {
  type Key = string
  type WaiterId = nat
  type ClientId = nat // 0: not tied to a client
  type TaskId = nat

  /**
   Linked: in the key sets, not yet counted (Register has not returned). Live: Register has returned. Closing:
   Cancel has marked it closed. Unlinked: Cancel has left the key sets. Done: Cancel has returned.
   */
  datatype Phase = Linked | Live | Closing | Unlinked | Done

  /**
   `full`: its one-slot channel holds a token, which names a key, or none when an Unblock has sent it; `sent`: a token
   was put there at some time.
   */
  datatype Waiter = Waiter(
    keys: seq<Key>, client: ClientId, phase: Phase, full: bool, token: Key, sent: bool,
    unblocked: bool, unblockedErr: bool)

  /** A call in flight, between two of its steps. `all` is the snapshot it took, `rest` what is still to do. */
  datatype Task =
    | Entering(key: Key)
    | Scanning(key: Key)
    | Broadcasting(key: Key, all: set<WaiterId>, rest: set<WaiterId>)
    | Unblocking(err: bool, all: set<WaiterId>, rest: set<WaiterId>, marked: set<WaiterId>)

  datatype Hub = Hub(
    keys: map<Key, set<WaiterId>>,
    clients: map<ClientId, set<WaiterId>>,
    counter: int,
    waiters: map<WaiterId, Waiter>,
    tasks: map<TaskId, Task>)

  const EMPTY_HUB := Hub(map[], map[], 0, map[], map[])

  datatype Step =
    | RegisterLink(w: WaiterId, ks: seq<Key>, client: ClientId)
    | RegisterCount(w: WaiterId)
    | CancelClose(w: WaiterId)
    | CancelUnlink(w: WaiterId)
    | CancelCount(w: WaiterId)
    | Receive(w: WaiterId)
    | NotifySkip(key: Key)
    | NotifyEnter(t: TaskId, key: Key)
    | NotifyMiss(t: TaskId)
    | NotifyLock(t: TaskId)
    | NotifySend(t: TaskId, w: WaiterId)
    | NotifyDrop(t: TaskId, w: WaiterId)
    | NotifyExhausted(t: TaskId)
    | BroadcastStart(t: TaskId, key: Key)
    | BroadcastSend(t: TaskId, w: WaiterId)
    | BroadcastEnd(t: TaskId)
    | UnblockStart(t: TaskId, client: ClientId, err: bool)
    | UnblockSkip(t: TaskId, w: WaiterId)
    | UnblockMark(t: TaskId, w: WaiterId)
    | UnblockSend(t: TaskId, w: WaiterId)
    | UnblockEnd(t: TaskId)

  // ----- the steps

  /** No call is inside a critical section that spans several steps. */
  predicate MutexFree(h: Hub) {
    forall t :: t in h.tasks ==> !h.tasks[t].Scanning?
  }

  predicate Closed(w: Waiter) { w.phase.Closing? || w.phase.Unlinked? || w.phase.Done? }

  predicate InPhase(h: Hub, w: WaiterId, p: Phase) { w in h.waiters && h.waiters[w].phase == p }

  predicate Waits(h: Hub, key: Key) { key in h.keys && h.keys[key] != {} }

  predicate Enabled(h: Hub, s: Step) {
    match s
    case RegisterLink(w, ks, client) => w !in h.waiters && MutexFree(h)
    case RegisterCount(w) => InPhase(h, w, Linked)
    case CancelClose(w) => InPhase(h, w, Live)
    case CancelUnlink(w) => InPhase(h, w, Closing) && MutexFree(h)
    case CancelCount(w) => InPhase(h, w, Unlinked)
    case Receive(w) => w in h.waiters && h.waiters[w].full
    case NotifySkip(key) => h.counter == 0
    case NotifyEnter(t, key) => t !in h.tasks && h.counter != 0
    case NotifyMiss(t) => t in h.tasks && h.tasks[t].Entering? && MutexFree(h) && !Waits(h, h.tasks[t].key)
    case NotifyLock(t) => t in h.tasks && h.tasks[t].Entering? && MutexFree(h) && Waits(h, h.tasks[t].key)
    case NotifySend(t, w) => CanScan(h, t, w) && !h.waiters[w].full
    case NotifyDrop(t, w) => CanScan(h, t, w) && h.waiters[w].full
    case NotifyExhausted(t) => t in h.tasks && h.tasks[t].Scanning? && !Waits(h, h.tasks[t].key)
    case BroadcastStart(t, key) => t !in h.tasks && MutexFree(h) && key in h.keys
    case BroadcastSend(t, w) => t in h.tasks && h.tasks[t].Broadcasting? && w in h.tasks[t].rest && w in h.waiters
    case BroadcastEnd(t) => t in h.tasks && h.tasks[t].Broadcasting? && h.tasks[t].rest == {}
    case UnblockStart(t, client, err) => t !in h.tasks && MutexFree(h) && client in h.clients
    case UnblockSkip(t, w) => CanUnblock(h, t, w) && Closed(h.waiters[w])
    case UnblockMark(t, w) => CanUnblock(h, t, w) && !Closed(h.waiters[w])
    case UnblockSend(t, w) =>
      t in h.tasks && h.tasks[t].Unblocking? && w in h.tasks[t].marked && w in h.waiters
    case UnblockEnd(t) =>
      t in h.tasks && h.tasks[t].Unblocking? && h.tasks[t].rest == {} && h.tasks[t].marked == {}
  }

  predicate CanScan(h: Hub, t: TaskId, w: WaiterId) {
    t in h.tasks && h.tasks[t].Scanning? && h.tasks[t].key in h.keys && w in h.keys[h.tasks[t].key] && w in h.waiters
  }

  predicate CanUnblock(h: Hub, t: TaskId, w: WaiterId) {
    && t in h.tasks && h.tasks[t].Unblocking? && h.tasks[t].marked == {}
    && w in h.tasks[t].rest && w in h.waiters
  }

  function Put<K>(index: map<K, set<WaiterId>>, ks: set<K>, w: WaiterId): map<K, set<WaiterId>> {
    map k | k in index.Keys + ks ::
      (if k in index then index[k] else {}) + (if k in ks then {w} else {})
  }

  /** Take w out of the sets of ks, and drop the sets that become empty. */
  function Take<K>(index: map<K, set<WaiterId>>, ks: set<K>, w: WaiterId): map<K, set<WaiterId>> {
    map k | k in index && !(k in ks && index[k] - {w} == {}) :: if k in ks then index[k] - {w} else index[k]
  }

  function KeySet(w: Waiter): set<Key> { set k | k in w.keys }

  function ClientSet(w: Waiter): set<ClientId> { if w.client == 0 then {} else {w.client} }

  function SetPhase(h: Hub, w: WaiterId, p: Phase): Hub
    requires w in h.waiters
  {
    h.(waiters := h.waiters[w := h.waiters[w].(phase := p)])
  }

  /** A non-blocking send: after it the channel is full either way, with this token if it was empty. */
  function Deliver(h: Hub, w: WaiterId, token: Key): Hub
    requires w in h.waiters
  {
    h.(waiters := h.waiters[w := Sent(h.waiters[w], token)])
  }

  function Sent(w: Waiter, token: Key): Waiter {
    w.(full := true, sent := true, token := if w.full then w.token else token)
  }

  function Finish(h: Hub, t: TaskId): Hub { h.(tasks := h.tasks - {t}) }

  function Apply(h: Hub, s: Step): Hub
    requires Enabled(h, s)
  {
    match s
    case RegisterLink(w, ks, client) =>
      var waiter := Waiter(ks, client, Linked, false, "", false, false, false);
      h.(keys := Put(h.keys, KeySet(waiter), w), clients := Put(h.clients, ClientSet(waiter), w),
         waiters := h.waiters[w := waiter])
    case RegisterCount(w) => SetPhase(h, w, Live).(counter := h.counter + 1)
    case CancelClose(w) => SetPhase(h, w, Closing)
    case CancelUnlink(w) =>
      SetPhase(h, w, Unlinked).(keys := Take(h.keys, KeySet(h.waiters[w]), w),
                                clients := Take(h.clients, ClientSet(h.waiters[w]), w))
    case CancelCount(w) => SetPhase(h, w, Done).(counter := h.counter - 1)
    case Receive(w) => h.(waiters := h.waiters[w := h.waiters[w].(full := false)])
    case NotifySkip(key) => h
    case NotifyEnter(t, key) => h.(tasks := h.tasks[t := Entering(key)])
    case NotifyMiss(t) => Finish(h, t)
    case NotifyLock(t) => h.(tasks := h.tasks[t := Scanning(h.tasks[t].key)])
    case NotifySend(t, w) => Finish(Deliver(h, w, h.tasks[t].key).(keys := Take(h.keys, {h.tasks[t].key}, w)), t)
    case NotifyDrop(t, w) =>
      var key := h.tasks[t].key;
      h.(keys := h.keys[key := h.keys[key] - {w}])
    case NotifyExhausted(t) => Finish(h.(keys := h.keys - {h.tasks[t].key}), t)
    case BroadcastStart(t, key) =>
      h.(keys := h.keys - {key}, tasks := h.tasks[t := Broadcasting(key, h.keys[key], h.keys[key])])
    case BroadcastSend(t, w) =>
      var task := h.tasks[t];
      Deliver(h, w, task.key).(tasks := h.tasks[t := Broadcasting(task.key, task.all, task.rest - {w})])
    case BroadcastEnd(t) => Finish(h, t)
    case UnblockStart(t, client, err) =>
      h.(tasks := h.tasks[t := Unblocking(err, h.clients[client], h.clients[client], {})])
    case UnblockSkip(t, w) =>
      var task := h.tasks[t];
      h.(tasks := h.tasks[t := Unblocking(task.err, task.all, task.rest - {w}, task.marked)])
    case UnblockMark(t, w) =>
      var task := h.tasks[t];
      var waiter := h.waiters[w];
      h.(tasks := h.tasks[t := Unblocking(task.err, task.all, task.rest - {w}, {w})],
         waiters := h.waiters[w := waiter.(unblocked := true, unblockedErr := waiter.unblockedErr || task.err)])
    case UnblockSend(t, w) =>
      var task := h.tasks[t];
      Deliver(h, w, "").(tasks := h.tasks[t := Unblocking(task.err, task.all, task.rest, task.marked - {w})])
    case UnblockEnd(t) => Finish(h, t)
  }

  // ----- what every step keeps

  ghost predicate Counted(w: Waiter) { w.phase.Live? || w.phase.Closing? || w.phase.Unlinked? }

  ghost function CountedSet(ws: map<WaiterId, Waiter>): set<WaiterId> { set w | w in ws && Counted(ws[w]) }

  /** The counter equals the waiters counted in and not yet counted out. */
  ghost predicate CounterExact(h: Hub) { h.counter == |CountedSet(h.waiters)| }

  ghost predicate FullMeansSent(h: Hub) { forall w :: w in h.waiters && h.waiters[w].full ==> h.waiters[w].sent }

  /** w is subscribed to key, has not begun to cancel and was never sent a token. */
  ghost predicate Hopes(h: Hub, w: WaiterId, key: Key) {
    w in h.waiters && !Closed(h.waiters[w]) && !h.waiters[w].sent && key in h.waiters[w].keys
  }

  ghost predicate InSet(h: Hub, w: WaiterId, key: Key) { key in h.keys && w in h.keys[key] }

  ghost predicate InClient(h: Hub, w: WaiterId, c: ClientId) { c in h.clients && w in h.clients[c] }

  /** Some NotifyAll on key has taken the set w was in and has not reached w yet. */
  ghost predicate Held(h: Hub, w: WaiterId, key: Key) {
    exists t :: t in h.tasks && HeldBy(h.tasks[t], w, key)
  }

  ghost predicate HeldBy(task: Task, w: WaiterId, key: Key) { task.Broadcasting? && task.key == key && w in task.rest }

  ghost predicate NoneForgotten(h: Hub) {
    forall w, key :: Hopes(h, w, key) ==> InSet(h, w, key) || Held(h, w, key)
  }

  ghost predicate Attached(w: Waiter) { w.phase.Linked? || w.phase.Live? || w.phase.Closing? }

  /** The client index lists every attached waiter that is tied to a client. */
  ghost predicate ClientsListed(h: Hub) {
    forall w :: w in h.waiters && Attached(h.waiters[w]) && h.waiters[w].client != 0 ==>
      InClient(h, w, h.waiters[w].client)
  }

  /** A token names a key of the waiter, or nothing, and then the waiter has been told so. */
  ghost predicate TokensNamed(h: Hub) {
    forall w :: w in h.waiters && h.waiters[w].full ==>
      h.waiters[w].token in h.waiters[w].keys || (h.waiters[w].token == "" && h.waiters[w].unblocked)
  }

  /** The waiters a NotifyAll has taken are subscribed to its key, those an Unblock is about to wake are marked. */
  ghost predicate TasksAim(h: Hub) {
    && (forall t, w :: t in h.tasks && h.tasks[t].Broadcasting? && w in h.tasks[t].rest ==>
         w in h.waiters && h.tasks[t].key in h.waiters[w].keys)
    && (forall t, w :: t in h.tasks && h.tasks[t].Unblocking? && w in h.tasks[t].marked ==>
         w in h.waiters && h.waiters[w].unblocked)
  }

  /** The key sets and the client index hold only attached waiters, under their own keys and clients. */
  ghost predicate IndexSound(h: Hub) {
    && (forall k, w :: InSet(h, w, k) ==> w in h.waiters && Attached(h.waiters[w]) && k in h.waiters[w].keys)
    && (forall c, w :: InClient(h, w, c) ==>
          w in h.waiters && Attached(h.waiters[w]) && h.waiters[w].client == c != 0)
  }

  /** Empty sets exist only for a key that is being scanned under the mutex. */
  ghost predicate NoEmptySets(h: Hub) {
    && (forall k :: k in h.keys && h.keys[k] == {} ==> exists t :: t in h.tasks && h.tasks[t] == Scanning(k))
    && (forall c :: c in h.clients ==> h.clients[c] != {})
  }

  ghost predicate OneScanner(h: Hub) {
    forall t, u :: t in h.tasks && u in h.tasks && h.tasks[t].Scanning? && h.tasks[u].Scanning? ==> t == u
  }

  ghost predicate TaskSound(h: Hub, task: Task) {
    match task
    case Entering(_) => true
    case Scanning(key) => key in h.keys
    case Broadcasting(_, all, rest) =>
      rest <= all && forall w :: w in all ==> w in h.waiters && (w in rest || h.waiters[w].sent)
    case Unblocking(err, all, rest, marked) =>
      && rest <= all && marked <= all
      && forall w :: w in all ==>
           && w in h.waiters
           && (w in rest || Closed(h.waiters[w]) || (h.waiters[w].unblocked && (err ==> h.waiters[w].unblockedErr)))
           && (w in rest || w in marked || Closed(h.waiters[w]) || h.waiters[w].sent)
  }

  ghost predicate TasksSound(h: Hub) { forall t :: t in h.tasks ==> TaskSound(h, h.tasks[t]) }

  ghost predicate Inv(h: Hub) {
    && CounterExact(h) && FullMeansSent(h) && NoneForgotten(h) && IndexSound(h)
    && NoEmptySets(h) && OneScanner(h) && TasksSound(h) && ClientsListed(h) && TokensNamed(h) && TasksAim(h)
  }

  lemma CountedUpdate(ws: map<WaiterId, Waiter>, w: WaiterId, x: Waiter)
    ensures CountedSet(ws[w := x]) == if Counted(x) then CountedSet(ws) + {w} else CountedSet(ws) - {w}
    ensures |CountedSet(ws[w := x])| == |CountedSet(ws)|
              + (if Counted(x) then 1 else 0) - (if w in ws && Counted(ws[w]) then 1 else 0)
  {
    var before := CountedSet(ws);
    assert CountedSet(ws[w := x]) == if Counted(x) then before + {w} else before - {w};
    assert w in before <==> w in ws && Counted(ws[w]);
  }

  /** Rewriting a waiter without changing whether it is counted leaves the counter exact. */
  lemma UncountedChange(h: Hub, h': Hub, w: WaiterId, x: Waiter)
    requires CounterExact(h) && h'.counter == h.counter && h'.waiters == h.waiters[w := x]
    requires Counted(x) == (w in h.waiters && Counted(h.waiters[w]))
    ensures CounterExact(h')
  {
    CountedUpdate(h.waiters, w, x);
  }

  lemma CounterKept(h: Hub, s: Step)
    requires CounterExact(h) && Enabled(h, s)
    ensures CounterExact(Apply(h, s))
  {
    hide CountedSet, Put, Take, CounterExact;
    var ws, h' := h.waiters, Apply(h, s);
    match s {
      case RegisterLink(w, ks, client) =>
        UncountedChange(h, h', w, Waiter(ks, client, Linked, false, "", false, false, false));
      case RegisterCount(w) => CountedIn(h, w);
      case CancelClose(w) => UncountedChange(h, h', w, ws[w].(phase := Closing));
      case CancelUnlink(w) => UncountedChange(h, h', w, ws[w].(phase := Unlinked));
      case CancelCount(w) => CountedOut(h, w);
      case Receive(w) => UncountedChange(h, h', w, ws[w].(full := false));
      case NotifySend(t, w) => UncountedChange(h, h', w, Sent(ws[w], h.tasks[t].key));
      case BroadcastSend(t, w) => UncountedChange(h, h', w, Sent(ws[w], h.tasks[t].key));
      case UnblockMark(t, w) =>
        var err := ws[w].unblockedErr || h.tasks[t].err;
        UncountedChange(h, h', w, ws[w].(unblocked := true, unblockedErr := err));
      case UnblockSend(_, w) => UncountedChange(h, h', w, Sent(ws[w], ""));
      case _ => SameCounts(h, h');
    }
  }

  lemma SameCounts(h: Hub, h': Hub)
    requires CounterExact(h) && h'.counter == h.counter && h'.waiters == h.waiters
    ensures CounterExact(h')
  {
  }

  lemma CountedIn(h: Hub, w: WaiterId)
    requires CounterExact(h) && Enabled(h, RegisterCount(w))
    ensures CounterExact(Apply(h, RegisterCount(w)))
  {
    CountedUpdate(h.waiters, w, h.waiters[w].(phase := Live));
  }

  lemma CountedOut(h: Hub, w: WaiterId)
    requires CounterExact(h) && Enabled(h, CancelCount(w))
    ensures CounterExact(Apply(h, CancelCount(w)))
  {
    CountedUpdate(h.waiters, w, h.waiters[w].(phase := Done));
  }

  lemma SentKept(h: Hub, s: Step)
    requires FullMeansSent(h) && Enabled(h, s)
    ensures FullMeansSent(Apply(h, s))
  {
  }

  /** A NotifyAll lets go of a waiter only after a token was sent to it. */
  lemma HeldKept(h: Hub, s: Step, w: WaiterId, key: Key)
    requires Enabled(h, s) && Held(h, w, key) && Hopes(Apply(h, s), w, key)
    ensures Held(Apply(h, s), w, key)
  {
    hide Put, Take;
    var h' := Apply(h, s);
    var t :| t in h.tasks && HeldBy(h.tasks[t], w, key);
    assert t in h'.tasks && HeldBy(h'.tasks[t], w, key);
  }

  /** A hopeful waiter leaves its key's set only into the hands of a NotifyAll. */
  lemma InSetKept(h: Hub, s: Step, w: WaiterId, key: Key)
    requires FullMeansSent(h) && Enabled(h, s) && InSet(h, w, key) && Hopes(Apply(h, s), w, key)
    requires w in h.waiters && NoEmptySets(h)
    ensures InSet(Apply(h, s), w, key) || Held(Apply(h, s), w, key)
  {
    var h' := Apply(h, s);
    match s {
      case BroadcastStart(t, k) =>
        if k == key {
          assert HeldBy(h'.tasks[t], w, key);
        }
      case CancelUnlink(v) => assert v != w && w in h.keys[key] - {v};
      case NotifySend(t, v) => assert v != w && w in h.keys[key] - {v};
      case NotifyDrop(t, v) => assert v != w && w in h.keys[key] - {v};
      case _ =>
    }
  }

  lemma NoneForgottenKept(h: Hub, s: Step)
    requires NoneForgotten(h) && FullMeansSent(h) && NoEmptySets(h) && Enabled(h, s)
    ensures NoneForgotten(Apply(h, s))
  {
    var h' := Apply(h, s);
    forall w, key | Hopes(h', w, key) ensures InSet(h', w, key) || Held(h', w, key) {
      if s.RegisterLink? && s.w == w {
        assert InSet(h', w, key);
      } else {
        assert Hopes(h, w, key);
        if Held(h, w, key) {
          HeldKept(h, s, w, key);
        } else {
          InSetKept(h, s, w, key);
        }
      }
    }
  }

  lemma IndexKept(h: Hub, s: Step)
    requires IndexSound(h) && Enabled(h, s)
    ensures IndexSound(Apply(h, s))
  {
    var h' := Apply(h, s);
    forall k, w | InSet(h', w, k)
      ensures w in h'.waiters && Attached(h'.waiters[w]) && k in h'.waiters[w].keys
    {
      assert InSet(h, w, k) || (s.RegisterLink? && s.w == w && k in s.ks);
    }
    forall c, w | InClient(h', w, c)
      ensures w in h'.waiters && Attached(h'.waiters[w]) && h'.waiters[w].client == c != 0
    {
      assert InClient(h, w, c) || (s.RegisterLink? && s.w == w && c == s.client != 0);
    }
  }

  lemma NoEmptyKept(h: Hub, s: Step)
    requires NoEmptySets(h) && OneScanner(h) && Enabled(h, s)
    ensures NoEmptySets(Apply(h, s))
  {
    var h' := Apply(h, s);
    forall k | k in h'.keys && h'.keys[k] == {}
      ensures exists t :: t in h'.tasks && h'.tasks[t] == Scanning(k)
    {
      if s.NotifyDrop? && h.tasks[s.t].key == k {
        assert h'.tasks[s.t] == Scanning(k);
      } else {
        assert k in h.keys && h.keys[k] == {};
        var t :| t in h.tasks && h.tasks[t] == Scanning(k);
        assert h'.tasks[t] == Scanning(k);
      }
    }
  }

  lemma ScannerKept(h: Hub, s: Step)
    requires OneScanner(h) && Enabled(h, s)
    ensures OneScanner(Apply(h, s))
  {
  }

  lemma TasksKept(h: Hub, s: Step)
    requires TasksSound(h) && OneScanner(h) && IndexSound(h) && Enabled(h, s)
    ensures TasksSound(Apply(h, s))
  {
    var h' := Apply(h, s);
    forall t | t in h'.tasks ensures TaskSound(h', h'.tasks[t]) {
      if t in h.tasks {
        TaskKept(h, s, t);
      } else if s.BroadcastStart? {
        assert forall w :: w in h.keys[s.key] ==> InSet(h, w, s.key);
      } else if s.UnblockStart? {
        assert forall w :: w in h.clients[s.client] ==> InClient(h, w, s.client);
      }
    }
  }

  lemma TaskKept(h: Hub, s: Step, t: TaskId)
    requires Enabled(h, s) && t in h.tasks && TaskSound(h, h.tasks[t]) && OneScanner(h)
    ensures t in Apply(h, s).tasks ==> TaskSound(Apply(h, s), Apply(h, s).tasks[t])
  {
    hide Put, Take;
  }

  lemma ClientsKept(h: Hub, s: Step)
    requires ClientsListed(h) && Enabled(h, s)
    ensures ClientsListed(Apply(h, s))
  {
    var h' := Apply(h, s);
    forall w | w in h'.waiters && Attached(h'.waiters[w]) && h'.waiters[w].client != 0
      ensures InClient(h', w, h'.waiters[w].client)
    {
      var c := h'.waiters[w].client;
      if s.RegisterLink? && s.w == w {
        assert c in ClientSet(h'.waiters[w]);
      } else {
        assert InClient(h, w, c);
        if s.CancelUnlink? {
          assert s.w != w && w in h.clients[c] - {s.w};
        }
      }
    }
  }

  lemma TokensKept(h: Hub, s: Step)
    requires TokensNamed(h) && TasksAim(h) && IndexSound(h) && Enabled(h, s)
    ensures TokensNamed(Apply(h, s))
  {
    hide Put, Take;
    if s.NotifySend? {
      assert InSet(h, s.w, h.tasks[s.t].key);
    }
  }

  lemma AimKept(h: Hub, s: Step)
    requires TasksAim(h) && IndexSound(h) && Enabled(h, s)
    ensures TasksAim(Apply(h, s))
  {
    var h' := Apply(h, s);
    forall t, w | t in h'.tasks && h'.tasks[t].Broadcasting? && w in h'.tasks[t].rest
      ensures w in h'.waiters && h'.tasks[t].key in h'.waiters[w].keys
    {
      BroadcastAims(h, s, t, w);
    }
    forall t, w | t in h'.tasks && h'.tasks[t].Unblocking? && w in h'.tasks[t].marked
      ensures w in h'.waiters && h'.waiters[w].unblocked
    {
      MarkAims(h, s, t, w);
    }
  }

  lemma BroadcastAims(h: Hub, s: Step, t: TaskId, w: WaiterId)
    requires TasksAim(h) && IndexSound(h) && Enabled(h, s)
    requires var h' := Apply(h, s); t in h'.tasks && h'.tasks[t].Broadcasting? && w in h'.tasks[t].rest
    ensures var h' := Apply(h, s); w in h'.waiters && h'.tasks[t].key in h'.waiters[w].keys
  {
    hide Put, Take;
    if t !in h.tasks {
      assert s.BroadcastStart? && InSet(h, w, s.key);
    }
  }

  lemma MarkAims(h: Hub, s: Step, t: TaskId, w: WaiterId)
    requires TasksAim(h) && Enabled(h, s)
    requires var h' := Apply(h, s); t in h'.tasks && h'.tasks[t].Unblocking? && w in h'.tasks[t].marked
    ensures var h' := Apply(h, s); w in h'.waiters && h'.waiters[w].unblocked
  {
    hide Put, Take;
  }

  lemma InvKept(h: Hub, s: Step)
    requires Inv(h) && Enabled(h, s)
    ensures Inv(Apply(h, s))
  {
    CounterKept(h, s);
    SentKept(h, s);
    NoneForgottenKept(h, s);
    IndexKept(h, s);
    NoEmptyKept(h, s);
    ScannerKept(h, s);
    TasksKept(h, s);
    ClientsKept(h, s);
    TokensKept(h, s);
    AimKept(h, s);
  }

  // ----- whole runs

  /** `run` is an interleaving that starts from an empty hub and ends in h. */
  ghost predicate Reaches(run: seq<Step>, h: Hub) {
    if run == [] then h == EMPTY_HUB
    else
      var last := |run| - 1;
      exists g :: Reaches(run[..last], g) && Enabled(g, run[last]) && h == Apply(g, run[last])
  }

  ghost predicate Reachable(h: Hub) { exists run :: Reaches(run, h) }

  lemma {:induction false} RunKeepsInv(run: seq<Step>, h: Hub)
    requires Reaches(run, h)
    ensures Inv(h)
    decreases |run|
  {
    if run == [] {
    } else {
      var last := |run| - 1;
      var g :| Reaches(run[..last], g) && Enabled(g, run[last]) && h == Apply(g, run[last]);
      RunKeepsInv(run[..last], g);
      InvKept(g, run[last]);
    }
  }

  lemma ReachableInv(h: Hub)
    requires Reachable(h)
    ensures Inv(h)
  {
    var run :| Reaches(run, h);
    RunKeepsInv(run, h);
  }

  lemma ReachFurther(run: seq<Step>, h: Hub, s: Step)
    requires Reaches(run, h) && Enabled(h, s)
    ensures Reaches(run + [s], Apply(h, s))
  {
    assert (run + [s])[..|run|] == run;
  }

  /** A step in which a call of Notify on `key` returns false. */
  ghost predicate NotifyReturnsFalse(h: Hub, s: Step, key: Key)
    requires Enabled(h, s)
  {
    || (s.NotifySkip? && s.key == key)
    || ((s.NotifyMiss? || s.NotifyExhausted?) && h.tasks[s.t].key == key)
  }

  /**
   No lost wake-up: in every interleaving, whenever Notify(key) returns false, the only waiters of the key that
   have been registered, not cancelled and never sent a token are ones an in-flight NotifyAll is about to reach.
   */
  lemma NoLostWakeup(h: Hub, s: Step, key: Key, w: WaiterId)
    requires Reachable(h) && Enabled(h, s) && NotifyReturnsFalse(h, s, key)
    requires Hopes(h, w, key) && h.waiters[w].phase.Live?
    ensures Held(h, w, key)
  {
    ReachableInv(h);
    if s.NotifySkip? {
      LiveIsCounted(h, w);
    }
  }

  /** A waiter whose Register has returned and whose Cancel has not keeps the counter positive. */
  lemma LiveIsCounted(h: Hub, w: WaiterId)
    requires CounterExact(h) && w in h.waiters && Counted(h.waiters[w])
    ensures h.counter > 0
  {
    assert w in CountedSet(h.waiters);
  }

  /** The only way to be overlooked by a successful Notify is that another subscriber of the key got the token. */
  lemma TokenGoesToSubscriber(h: Hub, t: TaskId, w: WaiterId)
    requires Reachable(h) && Enabled(h, NotifySend(t, w))
    ensures h.tasks[t].key in h.waiters[w].keys && Attached(h.waiters[w])
    ensures Apply(h, NotifySend(t, w)).waiters[w].full && !h.waiters[w].full
    ensures Apply(h, NotifySend(t, w)).waiters[w].token == h.tasks[t].key
    ensures forall v :: v in h.waiters && v != w ==> Apply(h, NotifySend(t, w)).waiters[v] == h.waiters[v]
  {
    ReachableInv(h);
    assert InSet(h, w, h.tasks[t].key);
  }

  /**
   The subscriber that gets the token may already be closing, while another one keeps waiting: Cancel marks the
   waiter closed before it leaves the key sets, and Notify does not look at the mark.
   */
  lemma TokenMayGoToClosing() returns (h: Hub)
    ensures Reachable(h) && Enabled(h, NotifySend(7, 0)) && Closed(h.waiters[0])
    ensures Hopes(Apply(h, NotifySend(7, 0)), 1, "k")
  {
    hide Reaches, Apply, Put, Take, InSet, InClient;
    var run;
    run, h := TwoWaiters(["k"], 0);
    var g := h;
    run, h := Do(run, h, CancelClose(0));
    CloseEffect(g, 0);
    SetsDecide(g, h);
    run, h := Scan(run, h, 7, "k", 0);
    SendEffect(h, 7, 0);
  }

  /**
   Nor does it look at what the waiter has been sent before. Waiter 0 waits on two keys, waiter 1 on the second only.
   The token of the first key has ended the wait of 0, its only read, when the second key is notified: that token
   may go to 0 as well, and 1 keeps waiting.
   */
  lemma TokenMayGoToWoken() returns (h: Hub)
    ensures Reachable(h) && Enabled(h, NotifySend(8, 0)) && !Closed(h.waiters[0]) && h.waiters[0].sent
    ensures Hopes(Apply(h, NotifySend(8, 0)), 1, "k") && Apply(h, NotifySend(8, 0)).tasks == map[]
  {
    hide Reaches, Apply, Put, Take, InSet, InClient;
    assert "a" in ["a", "k"] && "k" in ["a", "k"];
    var run;
    run, h := TwoWaiters(["a", "k"], 0);
    run, h := WakeFor(run, h, 0);
    run, h := Scan(run, h, 8, "k", 0);
    SendEffect(h, 8, 0);
  }

  /** Nor at whether the waiter is to give up: an Unblock that has marked it has yet to put its own token there. */
  lemma TokenMayGoToUnblocked() returns (h: Hub)
    ensures Reachable(h) && Enabled(h, NotifySend(8, 0)) && !Closed(h.waiters[0]) && h.waiters[0].unblocked
    ensures Hopes(Apply(h, NotifySend(8, 0)), 1, "k")
  {
    hide Reaches, Apply, Put, Take, InSet, InClient;
    var run;
    run, h := TwoWaiters(["k"], 5);
    var g := h;
    run, h := MarkUnblocked(run, h, 0, 5);
    SetsDecide(g, h);
    run, h := Scan(run, h, 8, "k", 0);
    SendEffect(h, 8, 0);
  }

  /** w waits for the key, has been sent nothing yet and has not been told to give up. */
  ghost predicate Eager(h: Hub, w: WaiterId, key: Key) {
    Hopes(h, w, key) && !h.waiters[w].unblocked
  }

  /**
   Exactly when a notify cannot waste its token. Whichever waiter the scan chooses is one that still hopes if and only
   if every subscriber with room for a token is neither cancelling nor woken before; and it is eager if and only if
   none of those is marked by an Unblock either.
   */
  lemma TokenNeverWastedIff(h: Hub, t: TaskId)
    requires Reachable(h) && t in h.tasks && h.tasks[t].Scanning?
    ensures (forall w :: Enabled(h, NotifySend(t, w)) ==> Hopes(h, w, h.tasks[t].key))
      <==> (forall w :: HasRoom(h, w, h.tasks[t].key) ==> !h.waiters[w].phase.Closing? && !h.waiters[w].sent)
    ensures (forall w :: Enabled(h, NotifySend(t, w)) ==> Eager(h, w, h.tasks[t].key))
      <==> (forall w :: HasRoom(h, w, h.tasks[t].key) ==>
        !h.waiters[w].phase.Closing? && !h.waiters[w].sent && !h.waiters[w].unblocked)
  {
    ReachableInv(h);
    var key := h.tasks[t].key;
    forall w
      ensures Enabled(h, NotifySend(t, w)) <==> HasRoom(h, w, key)
      ensures HasRoom(h, w, key) ==>
        (Hopes(h, w, key) <==> !h.waiters[w].phase.Closing? && !h.waiters[w].sent)
    {
      assert InSet(h, w, key) ==> w in h.waiters && Attached(h.waiters[w]) && key in h.waiters[w].keys;
    }
  }

  /** A subscriber whose channel is empty. */
  ghost predicate HasRoom(h: Hub, w: WaiterId, key: Key) {
    InSet(h, w, key) && w in h.waiters && !h.waiters[w].full
  }

  /** A waiter that a token waits for. */
  ghost predicate Awaited(h: Hub, w: WaiterId) {
    w in h.waiters && h.waiters[w].full
  }

  /** Its wait will be for nothing: it is cancelling, or will see that it was told to give up. */
  ghost predicate GivesUp(h: Hub, w: WaiterId) {
    w in h.waiters && (Closed(h.waiters[w]) || h.waiters[w].unblocked)
  }

  /** Then a Notify that returns true has put its token before a waiter that has yet to make its one read. */
  lemma TokenReachesEager(h: Hub, t: TaskId, w: WaiterId)
    requires Reachable(h) && Enabled(h, NotifySend(t, w))
    requires forall v :: HasRoom(h, v, h.tasks[t].key) ==>
      !h.waiters[v].phase.Closing? && !h.waiters[v].sent && !h.waiters[v].unblocked
    ensures Eager(h, w, h.tasks[t].key)
    ensures var g := Apply(h, NotifySend(t, w)); Awaited(g, w) && !GivesUp(g, w)
  {
    TokenNeverWastedIff(h, t);
  }

  /** An interleaving that leads from h to g. */
  ghost predicate LeadsTo(h: Hub, run: seq<Step>, g: Hub)
    decreases |run|
  {
    if run == [] then g == h
    else Enabled(h, run[0]) && LeadsTo(Apply(h, run[0]), run[1..], g)
  }

  predicate TurnsAway(s: Step, w: WaiterId) {
    s == CancelClose(w) || (s.UnblockMark? && s.w == w)
  }

  /**
   And what becomes of the token: until the waiter takes it, it stays in the channel, and the waiter will make use of
   it exactly unless its own cancel begins or an Unblock marks it in the meantime.
   */
  lemma {:induction false} TokenWaits(h: Hub, run: seq<Step>, g: Hub, w: WaiterId)
    requires LeadsTo(h, run, g) && Awaited(h, w) && !GivesUp(h, w) && Receive(w) !in run
    ensures Awaited(g, w)
    ensures GivesUp(g, w) <==> exists i :: 0 <= i < |run| && TurnsAway(run[i], w)
    decreases |run|
  {
    hide Apply, Enabled;
    if run == [] {
    } else {
      var s, rest := run[0], run[1..];
      var h' := Apply(h, s);
      assert s in run && forall i :: 0 <= i < |rest| ==> rest[i] == run[i + 1];
      TokenStaysUntilReceived(h, s, w);
      TurnedAwayByStep(h, s, w);
      if GivesUp(h', w) {
        GivingUpIsFinal(h', rest, g, w);
        assert TurnsAway(run[0], w);
      } else {
        TokenWaits(h', rest, g, w);
        if exists i :: 0 <= i < |run| && TurnsAway(run[i], w) {
          var i :| 0 <= i < |run| && TurnsAway(run[i], w);
          assert i > 0 && TurnsAway(rest[i - 1], w);
        }
      }
    }
  }

  lemma {:induction false} GivingUpIsFinal(h: Hub, run: seq<Step>, g: Hub, w: WaiterId)
    requires LeadsTo(h, run, g) && Awaited(h, w) && GivesUp(h, w) && Receive(w) !in run
    ensures Awaited(g, w) && GivesUp(g, w)
    decreases |run|
  {
    hide Apply, Enabled;
    if run == [] {
    } else {
      TokenStaysUntilReceived(h, run[0], w);
      TurnedAwayByStep(h, run[0], w);
      GivingUpIsFinal(Apply(h, run[0]), run[1..], g, w);
    }
  }

  lemma TurnedAwayByStep(h: Hub, s: Step, w: WaiterId)
    requires Enabled(h, s) && w in h.waiters
    ensures w in Apply(h, s).waiters && (GivesUp(Apply(h, s), w) <==> GivesUp(h, w) || TurnsAway(s, w))
  {
    hide Put, Take;
  }

  /** A token leaves its channel by a receive alone. */
  lemma TokenStaysUntilReceived(h: Hub, s: Step, w: WaiterId)
    requires Enabled(h, s) && w in h.waiters && h.waiters[w].full && s != Receive(w)
    ensures w in Apply(h, s).waiters && Apply(h, s).waiters[w].full
  {
  }

  lemma CloseEffect(h: Hub, w: WaiterId)
    requires Enabled(h, CancelClose(w))
    ensures Apply(h, CancelClose(w)) == h.(waiters := h.waiters[w := h.waiters[w].(phase := Closing)])
  {
  }

  /** One whole call of Register. */
  lemma RegisterOn(run: seq<Step>, h: Hub, w: WaiterId, ks: seq<Key>, client: ClientId)
    returns (run': seq<Step>, h': Hub)
    requires Reaches(run, h) && w !in h.waiters && MutexFree(h)
    ensures Reaches(run', h') && h'.counter == h.counter + 1 && h'.tasks == h.tasks
    ensures forall k, v :: InSet(h', v, k) <==> InSet(h, v, k) || (v == w && k in ks)
    ensures forall c, v :: InClient(h', v, c) <==> InClient(h, v, c) || (v == w && c == client != 0)
    ensures h'.waiters == h.waiters[w := Waiter(ks, client, Live, false, "", false, false, false)]
  {
    hide Reaches, Take;
    run', h' := Do(run, h, RegisterLink(w, ks, client));
    run', h' := Do(run', h', RegisterCount(w));
  }

  /** Waiter 0 on these keys and waiter 1 on "k", both registered, and nothing else going on. */
  lemma TwoWaiters(ks: seq<Key>, client: ClientId) returns (run: seq<Step>, h: Hub)
    requires "k" in ks
    ensures Reaches(run, h) && h.tasks == map[] && h.counter == 2
    ensures h.waiters == map[
      0 := Waiter(ks, client, Live, false, "", false, false, false),
      1 := Waiter(["k"], 0, Live, false, "", false, false, false)]
    ensures (forall k :: k in ks ==> InSet(h, 0, k)) && InSet(h, 1, "k") && "k" in h.waiters[1].keys
    ensures client != 0 ==> InClient(h, 0, client)
  {
    assert Reaches([], EMPTY_HUB);
    hide Reaches;
    run, h := RegisterOn([], EMPTY_HUB, 0, ks, client);
    run, h := RegisterOn(run, h, 1, ["k"], 0);
    assert "k" in ["k"];
  }

  lemma SetsDecide(h: Hub, g: Hub)
    requires h.keys == g.keys
    ensures forall k, v :: InSet(h, v, k) <==> InSet(g, v, k)
  {
  }

  /** A Notify up to where it has the mutex. */
  lemma Scan(run: seq<Step>, h: Hub, t: TaskId, key: Key, w: WaiterId) returns (run': seq<Step>, h': Hub)
    requires Reaches(run, h) && t !in h.tasks && MutexFree(h) && h.counter > 0
    requires InSet(h, w, key) && w in h.waiters && !h.waiters[w].full
    ensures Reaches(run', h') && h' == h.(tasks := h.tasks[t := Scanning(key)])
    ensures Enabled(h', NotifySend(t, w))
  {
    hide Reaches, Put, Take;
    run', h' := Do(run, h, NotifyEnter(t, key));
    assert InSet(h', w, key);
    run', h' := Do(run', h', NotifyLock(t));
    assert InSet(h', w, key);
  }

  lemma SendEffect(h: Hub, t: TaskId, w: WaiterId)
    requires Enabled(h, NotifySend(t, w))
    ensures var g := Apply(h, NotifySend(t, w));
      && g.tasks == h.tasks - {t} && g.counter == h.counter
      && g.waiters == h.waiters[w := h.waiters[w].(full := true, sent := true, token := h.tasks[t].key)]
      && (forall k, v :: InSet(g, v, k) <==> InSet(h, v, k) && !(k == h.tasks[t].key && v == w))
  {
    hide Put;
    var g := Apply(h, NotifySend(t, w));
    forall k, v ensures InSet(g, v, k) <==> InSet(h, v, k) && !(k == h.tasks[t].key && v == w) {
      if k == h.tasks[t].key && InSet(h, v, k) && v != w {
        assert v in h.keys[k] - {w};
      }
    }
  }

  /** A Notify of "a" sends to w, which takes the token. */
  lemma WakeFor(run: seq<Step>, h: Hub, w: WaiterId) returns (run': seq<Step>, h': Hub)
    requires Reaches(run, h) && h.tasks == map[] && h.counter > 0
    requires InSet(h, w, "a") && InPhase(h, w, Live) && !h.waiters[w].full
    ensures Reaches(run', h') && h'.tasks == map[] && h'.counter == h.counter
    ensures h'.waiters == h.waiters[w := h.waiters[w].(sent := true, token := "a")]
    ensures forall v :: InSet(h, v, "k") ==> InSet(h', v, "k")
  {
    hide Reaches, Put, Take;
    assert "k"[0] != "a"[0];
    run', h' := Scan(run, h, 7, "a", w);
    SetsDecide(h, h');
    SendEffect(h', 7, w);
    run', h' := Do(run', h', NotifySend(7, w));
    var g := h';
    run', h' := Do(run', h', Receive(w));
    assert h'.keys == g.keys;
  }

  /** An Unblock of a client has marked its waiter. */
  lemma MarkUnblocked(run: seq<Step>, h: Hub, w: WaiterId, client: ClientId) returns (run': seq<Step>, h': Hub)
    requires Reaches(run, h) && h.tasks == map[] && InClient(h, w, client) && InPhase(h, w, Live)
    ensures Reaches(run', h') && h'.counter == h.counter && h'.keys == h.keys && 8 !in h'.tasks && MutexFree(h')
    ensures h'.waiters == h.waiters[w := h.waiters[w].(unblocked := true)]
  {
    hide Reaches, Put, Take;
    run', h' := Do(run, h, UnblockStart(9, client, false));
    run', h' := Do(run', h', UnblockMark(9, w));
  }

  lemma Do(run: seq<Step>, h: Hub, s: Step) returns (run': seq<Step>, h': Hub)
    requires Reaches(run, h) && Enabled(h, s)
    ensures Reaches(run', h') && h' == Apply(h, s)
  {
    ReachFurther(run, h, s);
    run', h' := run + [s], Apply(h, s);
  }

  /** A finished NotifyAll has sent a token to every waiter it found under the key. */
  lemma BroadcastReachesAll(h: Hub, t: TaskId, w: WaiterId)
    requires Reachable(h) && Enabled(h, BroadcastEnd(t)) && w in h.tasks[t].all
    ensures w in h.waiters && h.waiters[w].sent
  {
    ReachableInv(h);
    assert TaskSound(h, h.tasks[t]);
  }

  /** An Unblock finds every attached waiter of the client and no other, and goes ahead when there is one. */
  lemma UnblockFindsAll(h: Hub, t: TaskId, client: ClientId, err: bool)
    requires Reachable(h) && t !in h.tasks && MutexFree(h) && client != 0
    ensures Enabled(h, UnblockStart(t, client, err)) <==>
      exists w :: w in h.waiters && h.waiters[w].client == client && Attached(h.waiters[w])
    ensures Enabled(h, UnblockStart(t, client, err)) ==>
      var task := Apply(h, UnblockStart(t, client, err)).tasks[t];
      && task.Unblocking? && task.err == err && task.marked == {} && task.rest == task.all
      && forall w :: w in task.all <==> w in h.waiters && h.waiters[w].client == client && Attached(h.waiters[w])
  {
    ReachableInv(h);
    OfClient(h, client);
    hide Inv, Put, Take;
    if client in h.clients {
      var w :| w in h.clients[client];
      assert InClient(h, w, client);
      assert forall v :: v in h.clients[client] <==> InClient(h, v, client);
    }
  }

  lemma OfClient(h: Hub, client: ClientId)
    requires Inv(h) && client != 0
    ensures forall w :: InClient(h, w, client) <==>
      w in h.waiters && h.waiters[w].client == client && Attached(h.waiters[w])
    ensures client in h.clients ==> h.clients[client] != {}
  {
  }

  /** A NotifyAll takes every hopeful waiter of the key that no other one holds. */
  lemma BroadcastFindsAll(h: Hub, t: TaskId, key: Key, w: WaiterId)
    requires Reachable(h) && t !in h.tasks && MutexFree(h) && Hopes(h, w, key) && !Held(h, w, key)
    ensures Enabled(h, BroadcastStart(t, key))
    ensures var task := Apply(h, BroadcastStart(t, key)).tasks[t];
      task.Broadcasting? && task.key == key && w in task.all && task.rest == task.all
  {
    ReachableInv(h);
  }

  /**
   A finished Unblock has flagged and woken every waiter of the client it found that is not being cancelled, and has
   marked it with the error it was to give, if any.
   */
  lemma UnblockReachesAll(h: Hub, t: TaskId, w: WaiterId)
    requires Reachable(h) && Enabled(h, UnblockEnd(t)) && w in h.tasks[t].all
    ensures w in h.waiters
    ensures Closed(h.waiters[w]) || (h.waiters[w].unblocked && h.waiters[w].sent)
    ensures h.tasks[t].err ==> Closed(h.waiters[w]) || h.waiters[w].unblockedErr
  {
    ReachableInv(h);
    assert TaskSound(h, h.tasks[t]);
  }

  // ----- what a waiter's marks say about the run

  /** Step i begins an Unblock that is still going on before step k. */
  ghost predicate GoingOn(run: seq<Step>, i: nat, t: TaskId, err: bool, k: nat) {
    && i < k <= |run| && run[i].UnblockStart? && run[i].t == t && run[i].err == err
    && forall j :: i < j < k ==> run[j] != UnblockEnd(t)
  }

  lemma LastStep(run: seq<Step>, h: Hub) returns (g: Hub)
    requires Reaches(run, h) && run != []
    ensures var last := |run| - 1;
      Reaches(run[..last], g) && Enabled(g, run[last]) && h == Apply(g, run[last])
  {
    var last := |run| - 1;
    g :| Reaches(run[..last], g) && Enabled(g, run[last]) && h == Apply(g, run[last]);
  }

  lemma NothingYetDone(h: Hub)
    requires Reaches([], h)
    ensures h.waiters == map[] && h.tasks == map[]
  {
  }

  lemma RegistersNew(g: Hub, s: Step)
    requires Enabled(g, s)
    ensures s.RegisterLink? ==> s.w !in g.waiters
  {
  }

  lemma MarksForTask(g: Hub, s: Step)
    requires Enabled(g, s)
    ensures s.UnblockMark? ==> s.t in g.tasks && g.tasks[s.t].Unblocking?
  {
  }

  lemma TaskByStep(g: Hub, s: Step, t: TaskId, err: bool)
    requires Enabled(g, s)
    ensures
      var h := Apply(g, s);
      (t in h.tasks && h.tasks[t].Unblocking? && h.tasks[t].err == err) <==>
        || (s.UnblockStart? && s.t == t && s.err == err)
        || (t in g.tasks && g.tasks[t].Unblocking? && g.tasks[t].err == err && s != UnblockEnd(t))
  {
    hide Put, Take;
  }

  /** An Unblock in flight is one that the run has begun and not ended, with the error it was begun with. */
  lemma {:induction false} TaskFromRun(run: seq<Step>, h: Hub, t: TaskId, err: bool)
    requires Reaches(run, h)
    ensures (t in h.tasks && h.tasks[t].Unblocking? && h.tasks[t].err == err) <==>
      exists i :: GoingOn(run, i, t, err, |run|)
    decreases |run|
  {
    hide Apply, Enabled, Reaches;
    if run == [] {
      NothingYetDone(h);
    } else {
      var last := |run| - 1;
      var before := run[..last];
      var g := LastStep(run, h);
      TaskFromRun(before, g, t, err);
      TaskByStep(g, run[last], t, err);
      if i: nat :| GoingOn(before, i, t, err, last) {
        assert run[last] != UnblockEnd(t) ==> GoingOn(run, i, t, err, |run|);
      }
      if i: nat :| GoingOn(run, i, t, err, |run|) {
        assert i < last ==> GoingOn(before, i, t, err, last) && run[last] != UnblockEnd(t);
      }
      if run[last].UnblockStart? && run[last].t == t && run[last].err == err {
        assert GoingOn(run, last, t, err, |run|);
      }
    }
  }

  predicate MarksIt(s: Step, w: WaiterId) {
    s.UnblockMark? && s.w == w
  }

  predicate SendsTo(s: Step, w: WaiterId) {
    (s.NotifySend? || s.BroadcastSend? || s.UnblockSend?) && s.w == w
  }

  /** Step i marks w for an Unblock that was begun with an error at step j. */
  ghost predicate MarksError(run: seq<Step>, i: nat, j: nat, w: WaiterId) {
    i < |run| && run[i].UnblockMark? && run[i].w == w && GoingOn(run, j, run[i].t, true, i)
  }

  /** What one step does to what is known about a waiter. */
  lemma WaiterByStep(g: Hub, s: Step, w: WaiterId)
    requires Enabled(g, s)
    ensures w in Apply(g, s).waiters <==> w in g.waiters || (s.RegisterLink? && s.w == w)
    ensures w !in g.waiters && s.RegisterLink? && s.w == w ==>
      Apply(g, s).waiters[w] == Waiter(s.ks, s.client, Linked, false, "", false, false, false)
    ensures w in g.waiters ==>
      var was, now := g.waiters[w], Apply(g, s).waiters[w];
      && now.keys == was.keys && now.client == was.client
      && (now.unblocked <==> was.unblocked || MarksIt(s, w))
      && (now.unblockedErr <==> was.unblockedErr || (MarksIt(s, w) && g.tasks[s.t].err))
      && (now.sent <==> was.sent || SendsTo(s, w))
      && (now.full <==> (was.full && s != Receive(w)) || SendsTo(s, w))
      && (Closed(now) <==> Closed(was) || s == CancelClose(w))
    ensures w !in g.waiters ==> !MarksIt(s, w) && !SendsTo(s, w) && s != CancelClose(w) && s != Receive(w)
  {
    hide Put, Take;
  }

  /** A waiter is known from the step that registers it, with its keys and its client, and never forgotten. */
  lemma {:induction false} RegisteredIff(run: seq<Step>, h: Hub, w: WaiterId)
    requires Reaches(run, h)
    ensures w in h.waiters <==> exists i :: 0 <= i < |run| && run[i].RegisterLink? && run[i].w == w
    ensures forall i :: 0 <= i < |run| && run[i].RegisterLink? && run[i].w == w ==>
      h.waiters[w].keys == run[i].ks && h.waiters[w].client == run[i].client
    decreases |run|
  {
    hide Apply, Enabled, Reaches;
    if run == [] {
      NothingYetDone(h);
    } else {
      var last := |run| - 1;
      var before := run[..last];
      var g := LastStep(run, h);
      RegisteredIff(before, g, w);
      WaiterByStep(g, run[last], w);
      RegistersNew(g, run[last]);
      assert forall i :: 0 <= i < last ==> before[i] == run[i];
    }
  }

  /** A waiter says that it was unblocked exactly when some step of the run has marked it. */
  lemma {:induction false} UnblockedIff(run: seq<Step>, h: Hub, w: WaiterId)
    requires Reaches(run, h)
    ensures w in h.waiters && h.waiters[w].unblocked <==> exists i :: 0 <= i < |run| && MarksIt(run[i], w)
    decreases |run|
  {
    hide Apply, Enabled, Reaches;
    if run == [] {
      NothingYetDone(h);
    } else {
      var last := |run| - 1;
      var before := run[..last];
      var g := LastStep(run, h);
      UnblockedIff(before, g, w);
      WaiterByStep(g, run[last], w);
      hide MarksIt;
      assert forall i :: 0 <= i < last ==> before[i] == run[i];
    }
  }

  /** And that it was unblocked with an error exactly when that step belonged to an Unblock begun with one. */
  lemma {:induction false} UnblockedErrIff(run: seq<Step>, h: Hub, w: WaiterId)
    requires Reaches(run, h)
    ensures w in h.waiters && h.waiters[w].unblockedErr <==> exists i, j :: MarksError(run, i, j, w)
    decreases |run|
  {
    hide Apply, Enabled, Reaches;
    if run == [] {
      NothingYetDone(h);
    } else {
      var last := |run| - 1;
      var before := run[..last];
      var g := LastStep(run, h);
      UnblockedErrIff(before, g, w);
      WaiterByStep(g, run[last], w);
      if run[last].UnblockMark? {
        TaskFromRun(before, g, run[last].t, true);
        MarksForTask(g, run[last]);
      }
      if i: nat, j: nat :| MarksError(before, i, j, w) {
        SameStart(run, before, j, run[i].t, i);
        assert MarksError(run, i, j, w);
      }
      if i: nat, j: nat :| MarksError(run, i, j, w) {
        SameStart(run, before, j, run[i].t, i);
        if i < last {
          assert MarksError(before, i, j, w);
        }
      }
      if MarksIt(run[last], w) && g.tasks[run[last].t].err {
        var j: nat :| GoingOn(before, j, run[last].t, true, last);
        SameStart(run, before, j, run[last].t, last);
        assert MarksError(run, last, j, w);
      }
    }
  }

  lemma SameStart(run: seq<Step>, before: seq<Step>, j: nat, t: TaskId, k: nat)
    requires |run| > 0 && before == run[..|run| - 1] && k < |run|
    ensures GoingOn(run, j, t, true, k) <==> GoingOn(before, j, t, true, k)
  {
  }

  /** A waiter has been sent a token exactly when some step of the run has sent it one. */
  lemma {:induction false} SentIff(run: seq<Step>, h: Hub, w: WaiterId)
    requires Reaches(run, h)
    ensures w in h.waiters && h.waiters[w].sent <==> exists i :: 0 <= i < |run| && SendsTo(run[i], w)
    decreases |run|
  {
    hide Apply, Enabled, Reaches;
    if run == [] {
      NothingYetDone(h);
    } else {
      var last := |run| - 1;
      var before := run[..last];
      var g := LastStep(run, h);
      SentIff(before, g, w);
      WaiterByStep(g, run[last], w);
      hide SendsTo;
      assert forall i :: 0 <= i < last ==> before[i] == run[i];
    }
  }

  /** Step i sends w a token that it has not received before the run ends. */
  ghost predicate Unreceived(run: seq<Step>, i: nat, w: WaiterId) {
    i < |run| && SendsTo(run[i], w) && forall j :: i < j < |run| ==> run[j] != Receive(w)
  }

  /** Its channel holds a token exactly when one was sent since the last receive. */
  lemma {:induction false} FullIff(run: seq<Step>, h: Hub, w: WaiterId)
    requires Reaches(run, h)
    ensures w in h.waiters && h.waiters[w].full <==> exists i :: Unreceived(run, i, w)
    decreases |run|
  {
    hide Apply, Enabled, Reaches;
    if run == [] {
      NothingYetDone(h);
    } else {
      var last := |run| - 1;
      var before := run[..last];
      var g := LastStep(run, h);
      FullIff(before, g, w);
      WaiterByStep(g, run[last], w);
      if i: nat :| Unreceived(before, i, w) {
        assert run[last] != Receive(w) ==> Unreceived(run, i, w);
      }
      if i: nat :| Unreceived(run, i, w) {
        assert i < last ==> Unreceived(before, i, w) && run[last] != Receive(w);
      }
      if SendsTo(run[last], w) {
        assert Unreceived(run, last, w);
      }
    }
  }

  /** What a wait returns is a key of the waiter, or nothing, and then an Unblock has told it to give up. */
  lemma TokenNamesKey(h: Hub, w: WaiterId)
    requires Reachable(h) && Enabled(h, Receive(w))
    ensures h.waiters[w].token in h.waiters[w].keys || (h.waiters[w].token == "" && h.waiters[w].unblocked)
  {
    ReachableInv(h);
  }

  // ----- every call can go on

  /**
   No call is stuck: one that has the mutex, or needs none, can take its next step, and so can one that waits for the
   mutex as soon as that is free.
   */
  lemma CallGoesOn(h: Hub, t: TaskId) returns (s: Step)
    requires Reachable(h) && t in h.tasks && (h.tasks[t].Entering? ==> MutexFree(h))
    ensures Enabled(h, s) && StepOf(s, t) && Remaining(Apply(h, s), t) < Remaining(h, t)
  {
    ReachableInv(h);
    var task := h.tasks[t];
    assert TaskSound(h, task);
    match task {
      case Entering(key) =>
        s := if Waits(h, key) then NotifyLock(t) else NotifyMiss(t);
      case Scanning(key) =>
        if Waits(h, key) {
          var w :| w in h.keys[key];
          assert InSet(h, w, key);
          s := if h.waiters[w].full then NotifyDrop(t, w) else NotifySend(t, w);
        } else {
          s := NotifyExhausted(t);
        }
      case Broadcasting(_, _, rest) =>
        if rest == {} {
          s := BroadcastEnd(t);
        } else {
          var w :| w in rest;
          s := BroadcastSend(t, w);
        }
      case Unblocking(_, _, rest, marked) =>
        if marked != {} {
          var w :| w in marked;
          s := UnblockSend(t, w);
        } else if rest == {} {
          s := UnblockEnd(t);
        } else {
          var w :| w in rest;
          s := if Closed(h.waiters[w]) then UnblockSkip(t, w) else UnblockMark(t, w);
        }
    }
  }

  /** Nor is a waiter: unless its Cancel has returned it can go on, at the latest when the mutex is free. */
  lemma WaiterGoesOn(h: Hub, w: WaiterId) returns (s: Step)
    requires w in h.waiters && !h.waiters[w].phase.Done? && (h.waiters[w].phase.Closing? ==> MutexFree(h))
    ensures Enabled(h, s) && Apply(h, s).waiters[w].phase == match h.waiters[w].phase
      case Linked => Live
      case Live => Closing
      case Closing => Unlinked
      case _ => Done
  {
    s := match h.waiters[w].phase
      case Linked => RegisterCount(w)
      case Live => CancelClose(w)
      case Closing => CancelUnlink(w)
      case _ => CancelCount(w);
  }

  /** The call a step belongs to. */
  predicate StepOf(s: Step, t: TaskId) {
    match s
    case NotifyMiss(u) => u == t
    case NotifyLock(u) => u == t
    case NotifySend(u, _) => u == t
    case NotifyDrop(u, _) => u == t
    case NotifyExhausted(u) => u == t
    case BroadcastSend(u, _) => u == t
    case BroadcastEnd(u) => u == t
    case UnblockSkip(u, _) => u == t
    case UnblockMark(u, _) => u == t
    case UnblockSend(u, _) => u == t
    case UnblockEnd(u) => u == t
    case _ => false
  }

  /** How many steps a call has left at most, as things are. */
  ghost function Remaining(h: Hub, t: TaskId): nat {
    if t !in h.tasks then 0
    else
      match h.tasks[t]
      case Entering(key) => 2 + if key in h.keys then |h.keys[key]| else 0
      case Scanning(key) => 1 + if key in h.keys then |h.keys[key]| else 0
      case Broadcasting(_, _, rest) => 1 + |rest|
      case Unblocking(_, _, rest, marked) => 1 + 2 * |rest| + |marked|
  }

  /** Nothing leaks: once every waiter has been cancelled and no call is in flight, the hub is empty again. */
  lemma QuiescentIsEmpty(h: Hub)
    requires Reachable(h) && h.tasks == map[]
    requires forall w :: w in h.waiters ==> h.waiters[w].phase.Done?
    ensures h.keys == map[] && h.clients == map[] && h.counter == 0
  {
    ReachableInv(h);
    assert CountedSet(h.waiters) == {};
    forall k | k in h.keys ensures false {
      var w :| w in h.keys[k];
      assert InSet(h, w, k);
    }
    forall c | c in h.clients ensures false {
      var w :| w in h.clients[c];
      assert InClient(h, w, c);
    }
  }

  /** Cancel is idempotent and final: a closed waiter never becomes live or linked again. */
  lemma ClosedStaysClosed(h: Hub, s: Step, w: WaiterId)
    requires Enabled(h, s) && w in h.waiters && Closed(h.waiters[w])
    ensures w in Apply(h, s).waiters && Closed(Apply(h, s).waiters[w])
  {
  }
}
