/** Loading folders on worker threads (nCore/FileSystemLoader.cpp), as a machine that takes one
    step of one thread at a time. */
module LoaderProtocol {
  import opened Text

  type Id = nat
  type Handler = nat

  /** An entry of a folder; its name cannot always be found out. */
  datatype Entry = Entry(item: string, name: Option<string>)

  datatype Request =
    | FolderRequest(enumerable: bool, entries: seq<Entry>, blackList: set<string>)
    | ItemRequest(item: string)

  datatype Response = FolderResponse(items: seq<string>) | ItemResponse(item: string)

  /** A worker reads entries, then checks whether it was cancelled, then waits until its response
      was received. */
  datatype Phase = Reading(taken: nat, items: seq<string>) | Checking(items: seq<string>) | Sending(response: Response) | Finished

  datatype Thread = Thread(request: Request, abort: bool, phase: Phase)

  datatype Event =
    | Requested(id: Id, handler: Handler, request: Request)
    | Cancelled(id: Id)
    | Called(id: Id, handler: Handler, response: Response)

  datatype State = State(nextRequestId: Id, outstanding: map<Id, Handler>, threads: map<Id, Thread>, trace: seq<Event>)

  datatype Action = Load(request: Request, handler: Handler) | CancelLoad(id: Id) | Work(id: Id) | Receive(id: Id)

  predicate Wanted(request: Request, entry: Entry)
    requires request.FolderRequest?
  {
    entry.name.Some? && entry.name.value !in request.blackList
  }

  /** The items of the entries that are not on the black list, in their order. */
  function Kept(request: Request, entries: seq<Entry>): (r: seq<string>)
    requires request.FolderRequest?
  {
    if entries == [] then []
    else
      var last := entries[|entries| - 1];
      Kept(request, entries[..|entries| - 1]) + if Wanted(request, last) then [last.item] else []
  }

  /** The full answer to a request. */
  function Answer(request: Request): Response {
    match request
    case FolderRequest(enumerable, entries, _) => FolderResponse(if enumerable then Kept(request, entries) else [])
    case ItemRequest(item) => ItemResponse(item)
  }

  // ----- Steps

  function Start(request: Request): Thread {
    Thread(request, false, Reading(0, []))
  }

  /** One step of a worker thread. */
  function Worked(t: Thread): Thread {
    match t.phase
    case Reading(taken, items) =>
      (match t.request
       case FolderRequest(enumerable, entries, _) =>
         if t.abort || !enumerable || taken >= |entries| then t.(phase := Checking(items))
         else
           var entry := entries[taken];
           t.(phase := Reading(taken + 1, items + if Wanted(t.request, entry) then [entry.item] else []))
       case ItemRequest(item) => t.(phase := Checking([item])))
    case Checking(items) =>
      if t.abort then t.(phase := Finished)
      else t.(phase := Sending(if t.request.ItemRequest? then ItemResponse(t.request.item) else FolderResponse(items)))
    case _ => t
  }

  predicate Enabled(s: State, a: Action) {
    match a
    case Load(_, _) => true
    case CancelLoad(id) => id in s.outstanding
    case Work(id) => id in s.threads && (s.threads[id].phase.Reading? || s.threads[id].phase.Checking?)
    case Receive(id) => id in s.threads && s.threads[id].phase.Sending?
  }

  function Apply(s: State, a: Action): State
    requires Enabled(s, a)
  {
    match a
    case Load(request, handler) =>
      var id := s.nextRequestId + 1;
      State(id,
            if id in s.outstanding then s.outstanding else s.outstanding[id := handler],
            s.threads[id := Start(request)],
            s.trace + [Requested(id, handler, request)])
    case CancelLoad(id) =>
      State(s.nextRequestId,
            s.outstanding - {id},
            if id in s.threads then s.threads[id := s.threads[id].(abort := true)] else s.threads,
            s.trace + [Cancelled(id)])
    case Work(id) => s.(threads := s.threads[id := Worked(s.threads[id])])
    case Receive(id) =>
      var thread := s.threads[id];
      State(s.nextRequestId,
            s.outstanding,
            s.threads[id := thread.(phase := Finished)],
            s.trace + if id in s.outstanding then [Called(id, s.outstanding[id], thread.phase.response)] else [])
  }

  const Initial := State(0, map[], map[], [])

  /** What a sequence of actions leads to; an action that cannot happen does not. */
  function Execute(actions: seq<Action>): State {
    if actions == [] then Initial
    else
      var s := Execute(actions[..|actions| - 1]);
      var a := actions[|actions| - 1];
      if Enabled(s, a) then Apply(s, a) else s
  }

  // ----- What every step keeps

  ghost predicate SoFar(t: Thread) {
    match t.phase
    case Reading(taken, items) =>
      t.request.FolderRequest? ==> taken <= |t.request.entries| && items == Kept(t.request, t.request.entries[..taken])
                                   && (!t.request.enumerable ==> taken == 0)
    case Checking(items) => !t.abort && t.request.FolderRequest? ==> FolderResponse(items) == Answer(t.request)
    case Sending(response) => response == Answer(t.request)
    case Finished => true
  }

  ghost predicate ThreadsOk(s: State) {
    && (forall id :: id in s.threads ==> 1 <= id <= s.nextRequestId)
    && (forall id :: id in s.threads ==> SoFar(s.threads[id]))
    && (forall id :: id in s.outstanding <==> id in s.threads && !s.threads[id].abort)
  }

  ghost predicate WasRequested(trace: seq<Event>, id: Id) {
    exists e :: e in trace && e.Requested? && e.id == id
  }

  ghost predicate WasCancelled(trace: seq<Event>, id: Id) {
    exists e :: e in trace && e.Cancelled? && e.id == id
  }

  ghost predicate WasCalled(trace: seq<Event>, id: Id) {
    exists e :: e in trace && e.Called? && e.id == id
  }

  /** The trace tells the same story as the state. */
  ghost predicate TraceOk(s: State) {
    && (forall e :: e in s.trace ==> e.id in s.threads)
    && (forall e :: e in s.trace && e.Requested? && e.id in s.threads ==> s.threads[e.id].request == e.request)
    && (forall e :: e in s.trace && e.Requested? && e.id in s.outstanding ==> s.outstanding[e.id] == e.handler)
    && (forall id :: id in s.threads ==> WasRequested(s.trace, id))
    && (forall id :: id in s.threads ==> (WasCancelled(s.trace, id) <==> s.threads[id].abort))
    && (forall id :: id in s.threads && WasCalled(s.trace, id) ==> s.threads[id].phase.Finished?)
    && (forall id :: id in s.threads && s.threads[id].phase.Finished? && !s.threads[id].abort ==> WasCalled(s.trace, id))
  }

  /** Two requests never get the same id; no handler is called twice for one id, or after that id
      was cancelled. */
  ghost predicate Orderly(trace: seq<Event>) {
    forall i, j :: 0 <= i < j < |trace| && trace[i].id == trace[j].id ==>
      && !trace[j].Requested?
      && !(trace[i].Cancelled? && trace[j].Cancelled?)
      && !(trace[i].Called? && trace[j].Called?)
      && !(trace[i].Cancelled? && trace[j].Called?)
  }

  /** A handler is called with the full answer to the request it was given for. */
  ghost predicate Answered(trace: seq<Event>) {
    forall j :: 0 <= j < |trace| && trace[j].Called? ==>
      exists i :: 0 <= i < j && trace[i].Requested? && trace[i].id == trace[j].id
                  && trace[i].handler == trace[j].handler && trace[j].response == Answer(trace[i].request)
  }

  ghost predicate Inv(s: State) {
    ThreadsOk(s) && TraceOk(s) && Orderly(s.trace) && Answered(s.trace)
  }

  lemma KeptSnoc(request: Request, entries: seq<Entry>, taken: nat)
    requires request.FolderRequest? && taken < |entries|
    ensures Kept(request, entries[..taken + 1])
         == Kept(request, entries[..taken]) + if Wanted(request, entries[taken]) then [entries[taken].item] else []
  {
    var some := entries[..taken + 1];
    assert some[..taken] == entries[..taken] && some[taken] == entries[taken];
  }

  lemma WorkedIsSoFar(t: Thread)
    requires SoFar(t)
    ensures SoFar(Worked(t)) && Worked(t).request == t.request && Worked(t).abort == t.abort
  {
    if t.phase.Reading? && t.request.FolderRequest? {
      var taken, entries := t.phase.taken, t.request.entries;
      if taken < |entries| {
        KeptSnoc(t.request, entries, taken);
      } else {
        assert entries[..taken] == entries;
      }
      assert entries[..0] == [];
    }
  }

  lemma WasSnoc(trace: seq<Event>, e: Event)
    ensures forall id :: WasRequested(trace + [e], id) <==> WasRequested(trace, id) || (e.Requested? && e.id == id)
    ensures forall id :: WasCancelled(trace + [e], id) <==> WasCancelled(trace, id) || (e.Cancelled? && e.id == id)
    ensures forall id :: WasCalled(trace + [e], id) <==> WasCalled(trace, id) || (e.Called? && e.id == id)
  {
  }

  lemma OrderlySnoc(trace: seq<Event>, e: Event)
    requires Orderly(trace)
    requires e.Requested? ==> forall d :: d in trace ==> d.id != e.id
    requires e.Cancelled? ==> !WasCancelled(trace, e.id)
    requires e.Called? ==> !WasCancelled(trace, e.id) && !WasCalled(trace, e.id)
    ensures Orderly(trace + [e])
  {
  }

  lemma AnsweredSnoc(trace: seq<Event>, e: Event)
    requires Answered(trace)
    requires e.Called? ==> exists d :: d in trace && d.Requested? && d.id == e.id && d.handler == e.handler && e.response == Answer(d.request)
    ensures Answered(trace + [e])
  {
    var all := trace + [e];
    forall j | 0 <= j < |all| && all[j].Called?
      ensures exists i :: 0 <= i < j && all[i].Requested? && all[i].id == all[j].id
                          && all[i].handler == all[j].handler && all[j].response == Answer(all[i].request)
    {
      if j < |trace| {
        var i :| 0 <= i < j && trace[i].Requested? && trace[i].id == trace[j].id
                 && trace[i].handler == trace[j].handler && trace[j].response == Answer(trace[i].request);
        assert all[i] == trace[i] && all[j] == trace[j];
      } else {
        var d :| d in trace && d.Requested? && d.id == e.id && d.handler == e.handler && e.response == Answer(d.request);
        var i :| 0 <= i < |trace| && trace[i] == d;
        assert all[i] == d;
      }
    }
  }

  lemma LoadKeeps(s: State, request: Request, handler: Handler)
    requires Inv(s)
    ensures Inv(Apply(s, Load(request, handler)))
  {
    hide Answered, Orderly, Answer, Kept, SoFar, WasRequested, WasCancelled, WasCalled;
    var e := Requested(s.nextRequestId + 1, handler, request);
    assert e.id !in s.threads && e.id !in s.outstanding;
    NothingRead(request);
    NothingHappened(s, e.id);
    WasSnoc(s.trace, e);
    OrderlySnoc(s.trace, e);
    AnsweredSnoc(s.trace, e);
  }

  lemma NothingRead(request: Request)
    ensures SoFar(Start(request))
  {
  }

  lemma NothingHappened(s: State, id: Id)
    requires TraceOk(s) && id !in s.threads
    ensures !WasRequested(s.trace, id) && !WasCancelled(s.trace, id) && !WasCalled(s.trace, id)
  {
  }

  lemma CancelledSoFar(t: Thread)
    requires SoFar(t)
    ensures SoFar(t.(abort := true))
  {
  }

  lemma CancelKeeps(s: State, id: Id)
    requires Inv(s) && id in s.outstanding
    ensures Inv(Apply(s, CancelLoad(id)))
  {
    hide Answered, Orderly, Answer, Kept, SoFar, WasRequested, WasCancelled, WasCalled;
    CancelledSoFar(s.threads[id]);
    WasSnoc(s.trace, Cancelled(id));
    OrderlySnoc(s.trace, Cancelled(id));
    AnsweredSnoc(s.trace, Cancelled(id));
  }

  lemma WorkKeeps(s: State, id: Id)
    requires Inv(s) && Enabled(s, Work(id))
    ensures Inv(Apply(s, Work(id)))
  {
    hide Answered, Orderly, Answer, Kept, SoFar, WasRequested, WasCancelled, WasCalled;
    WorkedIsSoFar(s.threads[id]);
  }

  lemma ReceiveKeeps(s: State, id: Id)
    requires Inv(s) && Enabled(s, Receive(id))
    ensures Inv(Apply(s, Receive(id)))
  {
    hide Answered, Orderly, Answer, Kept, SoFar, WasRequested, WasCancelled, WasCalled;
    var t := s.threads[id];
    SendsTheAnswer(t);
    if id in s.outstanding {
      var e := Called(id, s.outstanding[id], t.phase.response);
      RequestIsKnown(s, id);
      WasSnoc(s.trace, e);
      OrderlySnoc(s.trace, e);
      AnsweredSnoc(s.trace, e);
    } else {
      assert s.trace + [] == s.trace;
    }
  }

  lemma SendsTheAnswer(t: Thread)
    requires SoFar(t) && t.phase.Sending?
    ensures t.phase.response == Answer(t.request) && SoFar(t.(phase := Finished))
  {
  }

  lemma RequestIsKnown(s: State, id: Id)
    requires ThreadsOk(s) && TraceOk(s) && id in s.outstanding
    ensures Requested(id, s.outstanding[id], s.threads[id].request) in s.trace
  {
    assert WasRequested(s.trace, id);
  }

  /** In every run, whatever the threads do when. */
  lemma {:induction false} EveryRun(actions: seq<Action>)
    ensures Inv(Execute(actions))
  {
    hide Inv;
    if actions == [] {
      InitiallyInv();
    } else {
      var s := Execute(actions[..|actions| - 1]);
      EveryRun(actions[..|actions| - 1]);
      var a := actions[|actions| - 1];
      if Enabled(s, a) {
        match a
        case Load(request, handler) => LoadKeeps(s, request, handler);
        case CancelLoad(id) => CancelKeeps(s, id);
        case Work(id) => WorkKeeps(s, id);
        case Receive(id) => ReceiveKeeps(s, id);
      }
    }
  }

  lemma InitiallyInv()
    ensures Inv(Initial)
  {
  }

  // ----- What that means for the modules

  /** In every run: no id is given out twice, no handler is called twice for one request, and
      none is called for a request after it was cancelled. */
  lemma NeverTwiceNeverAfterCancel(actions: seq<Action>, i: nat, j: nat)
    requires i < j < |Execute(actions).trace|
    ensures var before, after := Execute(actions).trace[i], Execute(actions).trace[j];
            before.id == after.id ==>
              && !after.Requested?
              && !(before.Called? && after.Called?)
              && !(before.Cancelled? && after.Called?)
  {
    EveryRun(actions);
  }

  /** In every run, whoever is called asked for it before, is the handler that was given then, and
      gets the full answer: all entries that are not on the black list, in the folder's order. */
  lemma OnlyFullAnswers(actions: seq<Action>, id: Id, handler: Handler, response: Response)
    requires Called(id, handler, response) in Execute(actions).trace
    ensures exists request :: Requested(id, handler, request) in Execute(actions).trace && response == Answer(request)
  {
    EveryRun(actions);
    var trace := Execute(actions).trace;
    var j :| 0 <= j < |trace| && trace[j] == Called(id, handler, response);
    var i :| 0 <= i < j && trace[i].Requested? && trace[i].id == trace[j].id
             && trace[i].handler == trace[j].handler && trace[j].response == Answer(trace[i].request);
    assert trace[i] == Requested(id, handler, trace[i].request);
  }

  /** The entries kept, by their places in the folder. */
  lemma {:induction false} KeptPlaces(request: Request, entries: seq<Entry>) returns (places: seq<nat>)
    requires request.FolderRequest?
    ensures |places| == |Kept(request, entries)|
    ensures forall j, k :: 0 <= j < k < |places| ==> places[j] < places[k]
    ensures forall j :: 0 <= j < |places| ==> places[j] < |entries| && Kept(request, entries)[j] == entries[places[j]].item
    ensures forall k :: 0 <= k < |entries| ==>
              (k in places <==> entries[k].name.Some? && entries[k].name.value !in request.blackList)
    decreases |entries|
  {
    if entries == [] {
      places := [];
    } else {
      var before, last := entries[..|entries| - 1], |entries| - 1;
      var some := KeptPlaces(request, before);
      places := some + if Wanted(request, entries[last]) then [last] else [];
      assert forall k :: 0 <= k < last ==> before[k] == entries[k];
      assert forall k :: 0 <= k < |entries| ==> (k in places <==> k in some || (k == last && Wanted(request, entries[last])));
    }
  }

  /** In every run, what a handler is called with: for an item, that item; for a folder that cannot
      be enumerated, nothing; else the items at increasing places of the folder, exactly where the
      entry has a name that is not on the black list. */
  lemma WhatIsAnswered(actions: seq<Action>, id: Id, handler: Handler, response: Response) returns (request: Request, places: seq<nat>)
    requires Called(id, handler, response) in Execute(actions).trace
    ensures Requested(id, handler, request) in Execute(actions).trace
    ensures request.ItemRequest? ==> response == ItemResponse(request.item)
    ensures request.FolderRequest? ==> response.FolderResponse?
    ensures request.FolderRequest? && !request.enumerable ==> response.items == []
    ensures request.FolderRequest? && request.enumerable ==>
              && |places| == |response.items|
              && (forall j, k :: 0 <= j < k < |places| ==> places[j] < places[k])
              && (forall j :: 0 <= j < |places| ==> places[j] < |request.entries| && response.items[j] == request.entries[places[j]].item)
              && (forall k :: 0 <= k < |request.entries| ==>
                    (k in places <==> request.entries[k].name.Some? && request.entries[k].name.value !in request.blackList))
  {
    hide Kept, Execute;
    OnlyFullAnswers(actions, id, handler, response);
    request :| Requested(id, handler, request) in Execute(actions).trace && response == Answer(request);
    places := [];
    if request.FolderRequest? {
      places := KeptPlaces(request, request.entries);
    }
  }

  /** In every run, a request whose worker is done was answered or cancelled. */
  lemma AnsweredOrCancelled(actions: seq<Action>, id: Id)
    requires id in Execute(actions).threads && Execute(actions).threads[id].phase.Finished?
    ensures WasCalled(Execute(actions).trace, id) || WasCancelled(Execute(actions).trace, id)
  {
    EveryRun(actions);
  }

  /** A worker has only so many steps to take before it waits for the main thread or is done. */
  ghost function StepsLeft(t: Thread): nat {
    match t.phase
    case Reading(taken, _) => if t.request.FolderRequest? && taken <= |t.request.entries| then |t.request.entries| - taken + 2 else 2
    case Checking(_) => 1
    case _ => 0
  }

  function WorkedTimes(t: Thread, n: nat): Thread
    decreases n
  {
    if n == 0 then t else WorkedTimes(Worked(t), n - 1)
  }

  /** A worker that is left alone gets its answer ready in a bounded number of steps; one that
      finds itself cancelled ends without sending anything. */
  lemma {:induction false} WorkersGetOn(t: Thread, n: nat)
    requires SoFar(t) && !t.phase.Finished? && StepsLeft(t) <= n
    ensures !t.abort ==> WorkedTimes(t, n).phase == Sending(Answer(t.request))
    ensures t.abort && !t.phase.Sending? ==> WorkedTimes(t, n).phase == Finished
    decreases n
  {
    hide Answer, Kept, SoFar;
    if n > 0 {
      WorkedIsSoFar(t);
      SomethingDone(t);
      if Worked(t).phase.Finished? {
        StaysFinished(Worked(t), n - 1);
      } else {
        WorkersGetOn(Worked(t), n - 1);
      }
    } else {
      SendsTheAnswer(t);
    }
  }

  lemma SomethingDone(t: Thread)
    requires SoFar(t)
    ensures t.phase.Reading? || t.phase.Checking? ==> StepsLeft(Worked(t)) < StepsLeft(t) && (t.abort ==> !Worked(t).phase.Sending?)
    ensures Worked(t).phase.Finished? ==> t.abort || t.phase.Finished?
    ensures t.phase.Sending? ==> Worked(t) == t
  {
  }

  lemma {:induction false} StaysFinished(t: Thread, n: nat)
    requires t.phase.Finished?
    ensures WorkedTimes(t, n) == t
    decreases n
  {
    if n > 0 {
      StaysFinished(t, n - 1);
    }
  }

  // ----- Progress

  function Works(id: Id, n: nat): seq<Action> {
    if n == 0 then [] else [Work(id)] + Works(id, n - 1)
  }

  lemma ExecuteSnoc(actions: seq<Action>, a: Action)
    ensures var s := Execute(actions);
            Execute(actions + [a]) == if Enabled(s, a) then Apply(s, a) else s
  {
    var all := actions + [a];
    assert all[..|all| - 1] == actions;
  }

  lemma WorkedStays(t: Thread)
    requires t.phase.Sending? || t.phase.Finished?
    ensures Worked(t) == t
  {
  }

  /** Letting only one worker step changes only its own thread. */
  lemma {:induction false} WorksRun(actions: seq<Action>, id: Id, n: nat)
    requires id in Execute(actions).threads
    ensures var s := Execute(actions);
            Execute(actions + Works(id, n)) == s.(threads := s.threads[id := WorkedTimes(s.threads[id], n)])
    decreases n
  {
    hide Execute, Worked;
    var s := Execute(actions);
    if n == 0 {
      assert actions + Works(id, n) == actions;
    } else {
      var once := actions + [Work(id)];
      ExecuteSnoc(actions, Work(id));
      if !Enabled(s, Work(id)) {
        WorkedStays(s.threads[id]);
      }
      assert Execute(once) == s.(threads := s.threads[id := Worked(s.threads[id])]);
      WorksRun(once, id, n - 1);
      assert actions + Works(id, n) == once + Works(id, n - 1);
    }
  }

  /** From every point of every run, a request that is neither cancelled nor answered yet is
      answered if its worker is let to finish: then its own handler gets the full answer. */
  lemma EveryRequestCanBeAnswered(actions: seq<Action>, id: Id, n: nat)
    requires var s := Execute(actions);
             id in s.outstanding && id in s.threads && !s.threads[id].phase.Finished? && StepsLeft(s.threads[id]) <= n
    ensures var s := Execute(actions);
            && Requested(id, s.outstanding[id], s.threads[id].request) in s.trace
            && Called(id, s.outstanding[id], Answer(s.threads[id].request)) in Execute(actions + Works(id, n) + [Receive(id)]).trace
  {
    hide Execute, Answer, SoFar, WorkedTimes, StepsLeft, Works, TraceOk, Orderly, Answered;
    var s := Execute(actions);
    EveryRun(actions);
    RequestIsKnown(s, id);
    assert SoFar(s.threads[id]) && !s.threads[id].abort;
    WorkersGetOn(s.threads[id], n);
    WorksRun(actions, id, n);
    ExecuteSnoc(actions + Works(id, n), Receive(id));
  }
}
