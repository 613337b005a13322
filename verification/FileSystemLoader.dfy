/** The loader itself (nCore/FileSystemLoader.cpp): its requests, the flags it shares with the
    workers, and the workers, each of whose steps is a step of the protocol. */
module FileSystemLoader {
  import opened LoaderProtocol

  /** Shared by a request and its worker. */
  class AbortFlag {
    var raised: bool

    constructor ()
      ensures !raised
    {
      raised := false;
    }
  }

  class Worker {
    const request: Request
    const abort: AbortFlag
    var phase: Phase

    constructor (request: Request, abort: AbortFlag)
      ensures this.request == request && this.abort == abort && phase == Reading(0, [])
    {
      this.request, this.abort, phase := request, abort, Reading(0, []);
    }

    function View(): Thread
      reads this, abort
    {
      Thread(request, abort.raised, phase)
    }

    /** One turn of the loop over the folder, or the check behind it. */
    method Step()
      requires phase.Reading? || phase.Checking?
      modifies this`phase
      ensures View() == Worked(old(View()))
    {
      match phase
      case Reading(taken, items) =>
        if request.ItemRequest? {
          phase := Checking([request.item]);
        } else if !abort.raised && request.enumerable && taken < |request.entries| {
          var idNext := request.entries[taken];
          var found := items;
          if idNext.name.Some? {
            if idNext.name.value !in request.blackList {
              found := found + [idNext.item];
            }
          }
          assert items + [] == items;
          phase := Reading(taken + 1, found);
        } else {
          phase := Checking(items);
        }
      case Checking(items) =>
        if abort.raised {
          phase := Finished;
        } else if request.ItemRequest? {
          phase := Sending(ItemResponse(request.item));
        } else {
          phase := Sending(FolderResponse(items));
        }
    }
  }

  datatype RequestData = RequestData(handler: Handler, abort: AbortFlag)

  /** A request shares its flag with its own worker and nobody else. */
  ghost predicate Paired(nextRequestId: Id, outstanding: map<Id, RequestData>, workers: map<Id, Worker>) {
    && (forall id :: id in workers ==> 1 <= id <= nextRequestId)
    && (forall id :: id in outstanding ==> id in workers && outstanding[id].abort == workers[id].abort)
    && (forall a, b :: a in workers && b in workers && a != b ==> workers[a] != workers[b] && workers[a].abort != workers[b].abort)
  }

  lemma PairedAfterAdding(nextRequestId: Id, outstanding: map<Id, RequestData>, workers: map<Id, Worker>, handler: Handler, worker: Worker)
    requires Paired(nextRequestId, outstanding, workers)
    requires forall x :: x in workers ==> workers[x] != worker && workers[x].abort != worker.abort
    ensures var id := nextRequestId + 1;
            && id !in workers && id !in outstanding
            && Paired(id, outstanding[id := RequestData(handler, worker.abort)], workers[id := worker])
  {
  }

  ghost function Handlers(outstanding: map<Id, RequestData>): map<Id, Handler> {
    map id | id in outstanding :: outstanding[id].handler
  }

  lemma HandlersAfterAdding(outstanding: map<Id, RequestData>, id: Id, data: RequestData)
    ensures Handlers(outstanding[id := data]) == Handlers(outstanding)[id := data.handler]
  {
  }

  lemma HandlersAfterRemoving(outstanding: map<Id, RequestData>, id: Id)
    ensures Handlers(outstanding - {id}) == Handlers(outstanding) - {id}
  {
  }

  lemma HandlersDomain(outstanding: map<Id, RequestData>)
    ensures Handlers(outstanding).Keys == outstanding.Keys
    ensures forall id :: id in outstanding ==> Handlers(outstanding)[id] == outstanding[id].handler
  {
  }

  class Loader {
    var nextRequestId: Id
    var outstanding: map<Id, RequestData>
    var workers: map<Id, Worker>
    // What handlers and callers saw so far.
    ghost var trace: seq<Event>

    constructor ()
      ensures Valid() && View() == Initial
    {
      nextRequestId, outstanding, workers, trace := 0, map[], map[], [];
    }

    ghost function Flags(): set<AbortFlag>
      reads this`workers
    {
      set id | id in workers :: workers[id].abort
    }

    ghost predicate Valid()
      reads this
    {
      Paired(nextRequestId, outstanding, workers)
    }

    ghost function Threads(): map<Id, Thread>
      reads this`workers, workers.Values, Flags()
    {
      map id | id in workers :: workers[id].View()
    }

    ghost function View(): State
      reads this, workers.Values, Flags()
    {
      State(nextRequestId, Handlers(outstanding), Threads(), trace)
    }

    /** All threads but one are as they were. */
    lemma ThreadsAre(before: map<Id, Thread>, id: Id)
      requires id in workers && workers.Keys == before.Keys + {id}
      requires forall x :: x in workers && x != id ==> workers[x].View() == before[x]
      ensures Threads() == before[id := workers[id].View()]
    {
    }

    lemma ThreadsDomain()
      ensures Threads().Keys == workers.Keys
      ensures forall id :: id in workers ==> Threads()[id] == workers[id].View()
    {
    }

    lemma StartedView(worker: Worker)
      requires !worker.abort.raised && worker.phase == Reading(0, [])
      ensures worker.View() == Start(worker.request)
    {
    }

    method LoadFolder(request: Request, handler: Handler) returns (requestId: Id)
      requires Valid() && request.FolderRequest?
      modifies this
      ensures Valid() && View() == Apply(old(View()), Action.Load(request, handler)) && requestId == nextRequestId
    {
      hide Start, Handlers, Threads, Valid;
      requestId := Begin(request, handler);
    }

    method LoadFolderItem(request: Request, handler: Handler) returns (requestId: Id)
      requires Valid() && request.ItemRequest?
      modifies this
      ensures Valid() && View() == Apply(old(View()), Action.Load(request, handler)) && requestId == nextRequestId
    {
      hide Start, Handlers, Threads, Valid;
      requestId := Begin(request, handler);
    }

    method Begin(request: Request, handler: Handler) returns (requestId: Id)
      requires Valid()
      modifies this
      ensures Valid() && requestId == nextRequestId == old(nextRequestId) + 1
      ensures requestId !in old(Handlers(outstanding)) && Handlers(outstanding) == old(Handlers(outstanding))[requestId := handler]
      ensures Threads() == old(Threads())[requestId := Start(request)]
      ensures trace == old(trace) + [Requested(requestId, handler, request)]
    {
      hide Start, Handlers, Threads, Paired, Worker.View;
      ThreadsDomain();
      requestId := nextRequestId + 1;
      var abort := new AbortFlag();
      var worker := new Worker(request, abort);
      assert requestId !in Handlers(outstanding) && requestId !in workers
        && Paired(requestId, outstanding[requestId := RequestData(handler, abort)], workers[requestId := worker]) by {
        assert forall x :: x in workers ==> workers[x] != worker && workers[x].abort != abort;
        PairedAfterAdding(nextRequestId, outstanding, workers, handler, worker);
        HandlersDomain(outstanding);
      }
      HandlersAfterAdding(outstanding, requestId, RequestData(handler, abort));
      nextRequestId, outstanding, workers, trace := requestId,
        outstanding[requestId := RequestData(handler, abort)], workers[requestId := worker], trace + [Requested(requestId, handler, request)];
      assert Threads() == old(Threads())[requestId := Start(request)] by {
        StartedView(worker);
        assert forall x :: x in old(workers) ==> workers[x].View() == old(workers[x].View());
        ThreadsAre(old(Threads()), requestId);
      }
    }

    method CancelLoad(id: Id)
      requires Valid() && id in outstanding
      modifies this, Flags()
      ensures Valid() && View() == Apply(old(View()), Action.CancelLoad(id))
    {
      hide Handlers, Threads;
      ThreadsDomain();
      HandlersAfterRemoving(outstanding, id);
      outstanding[id].abort.raised := true;
      outstanding := outstanding - {id};
      trace := trace + [Cancelled(id)];
      assert forall x :: x in workers && x != id ==> workers[x].View() == old(workers[x].View());
      ThreadsAre(old(Threads()), id);
    }

    /** The main thread receives the message of a worker, which then ends. */
    method Receive(id: Id)
      requires Valid() && id in workers && workers[id].phase.Sending?
      modifies this`trace, workers[id]
      ensures Valid() && View() == Apply(old(View()), Action.Receive(id))
    {
      hide Handlers, Threads;
      ThreadsDomain();
      HandlersDomain(outstanding);
      var worker := workers[id];
      Completed(id, worker.phase.response);
      worker.phase := Finished;
      assert forall x :: x in workers && x != id ==> workers[x].View() == old(workers[x].View());
      ThreadsAre(old(Threads()), id);
    }

    method Completed(id: Id, response: Response)
      modifies this`trace
      ensures trace == old(trace) + if id in outstanding then [Called(id, outstanding[id].handler, response)] else []
    {
      if id in outstanding {
        trace := trace + [Called(id, outstanding[id].handler, response)];
      }
    }

    method Work(id: Id)
      requires Valid() && id in workers && (workers[id].phase.Reading? || workers[id].phase.Checking?)
      modifies workers[id]
      ensures Valid() && View() == Apply(old(View()), Action.Work(id))
    {
      hide Worked, Handlers, Threads;
      ThreadsDomain();
      workers[id].Step();
      assert forall x :: x in workers && x != id ==> workers[x].View() == old(workers[x].View());
      ThreadsAre(old(Threads()), id);
    }
  }
}
