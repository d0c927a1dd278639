/** The plug-in's active object: it passes one request at a time to the installer's
    server, and completes each client request once. */
module Plugin {
  import opened Platform

  const REQUEST_PENDING := -0x7FFF_FFFF

  datatype Kind = GetComponentInfo | Install | Uninstall | Activate | Deactivate

  /** What can happen to the object: a client's request, the server's answer, the
      scheduler's run of the object, and a cancellation. */
  datatype Event =
    | Request(kind: Kind, silent: bool, trustedUi: bool)
    | Answer(code: int)
    | Dispatch
    | Cancel

  /** The request being served, if any; whether the object is active; the result the
      server has given, if any; how many requests there have been; and every
      completion of a client's request, with its number. */
  datatype State = State(client: Option<nat>, active: bool, status: Option<int>, issued: nat, log: seq<(nat, int)>)

  const IDLE := State(None, false, None, 0, [])

  /** Installing and uninstalling silently takes a capability. */
  predicate Denied(kind: Kind, silent: bool, trustedUi: bool) {
    kind in {Install, Uninstall} && silent && !trustedUi
  }

  /** The next state, for an event that can happen: clients make one request at a
      time, the server answers what it was asked once, and the scheduler runs an
      active object whose request is answered. */
  function Step(s: State, e: Event): Option<State> {
    match e
    case Request(kind, silent, trustedUi) =>
      if s.active then None
      else if Denied(kind, silent, trustedUi) then
        Some(s.(client := None, issued := s.issued + 1, log := s.log + [(s.issued, ERR_PERMISSION_DENIED)]))
      else Some(State(Some(s.issued), true, None, s.issued + 1, s.log))
    case Answer(code) =>
      if !s.active || s.status.Some? then None else Some(s.(status := Some(code)))
    case Dispatch =>
      if !s.active || s.status.None? || s.client.None? then None
      else Some(s.(active := false, client := None, log := s.log + [(s.client.value, s.status.value)]))
    case Cancel =>
      if !s.active then Some(s)
      else if s.client.None? then None
      else
        var code := if s.status.Some? then s.status.value else ERR_CANCEL;
        Some(s.(active := false, client := None, status := Some(code), log := s.log + [(s.client.value, code)]))
  }

  function Run(s: State, events: seq<Event>): Option<State>
    decreases |events|
  {
    if events == [] then Some(s)
    else
      match Step(s, events[0])
      case None => None
      case Some(next) => Run(next, events[1..])
  }

  // ---------------------------------------------------------------------------
  // What clients are told
  // ---------------------------------------------------------------------------

  /** The result a request gets from the events after it: the server's first answer,
      or KErrCancel, once the object is run or cancelled. */
  function Delivered(events: seq<Event>, answer: Option<int>): Option<int>
    decreases |events|
  {
    if events == [] then None
    else
      match events[0]
      case Answer(code) => Delivered(events[1..], if answer.None? then Some(code) else answer)
      case Dispatch => answer
      case Cancel => if answer.Some? then answer else Some(ERR_CANCEL)
      case Request(_, _, _) => None
  }

  function Completion(id: nat, result: Option<int>): seq<(nat, int)> {
    match result
    case None => []
    case Some(code) => [(id, code)]
  }

  /** The completions of all requests, one by one, numbered from id. */
  function Completions(events: seq<Event>, id: nat): seq<(nat, int)>
    decreases |events|
  {
    if events == [] then []
    else if !events[0].Request? then Completions(events[1..], id)
    else
      (if Denied(events[0].kind, events[0].silent, events[0].trustedUi) then [(id, ERR_PERMISSION_DENIED)]
       else Completion(id, Delivered(events[1..], None)))
      + Completions(events[1..], id + 1)
  }

  ghost predicate Consistent(s: State) {
    && (s.client.Some? <==> s.active)
    && (s.client.Some? ==> s.client.value + 1 == s.issued)
  }

  lemma StepConsistent(s: State, e: Event)
    requires Consistent(s) && Step(s, e).Some?
    ensures Consistent(Step(s, e).value)
  {
  }

  /** What is still to be told about the request being served. */
  function Pending(s: State, events: seq<Event>): seq<(nat, int)> {
    if s.client.Some? then Completion(s.client.value, Delivered(events, s.status)) else []
  }

  /** Every interleaving completes each request as Completions says, and in between
      the object is active exactly while a client is waiting. */
  lemma {:induction false} RunCompletes(s: State, events: seq<Event>)
    requires Consistent(s) && Run(s, events).Some?
    ensures Consistent(Run(s, events).value)
    ensures Run(s, events).value.log == s.log + Pending(s, events) + Completions(events, s.issued)
    decreases |events|
  {
    if events == [] {
      assert Pending(s, events) == [];
    } else {
      var next := Step(s, events[0]).value;
      StepConsistent(s, events[0]);
      RunCompletes(next, events[1..]);
      StepLogs(s, events);
    }
  }

  lemma StepLogs(s: State, events: seq<Event>)
    requires Consistent(s) && events != [] && Step(s, events[0]).Some?
    ensures var next := Step(s, events[0]).value;
            next.log + Pending(next, events[1..]) + Completions(events[1..], next.issued) == s.log + Pending(s, events) + Completions(events, s.issued)
  {
    var next := Step(s, events[0]).value;
    if events[0].Request? {
      assert Pending(s, events) == [];
      assert s.log + [] == s.log;
    }
  }

  predicate InOrder(log: seq<(nat, int)>, from: int, to: int) {
    && |log| == to - from
    && forall i :: 0 <= i < |log| ==> log[i].0 == from + i
  }

  /** Exactly once: the completions are those of the requests in their order, each
      with one result, except that the request being served has none yet. */
  lemma {:induction false} CompletedOnce(s: State, events: seq<Event>)
    requires Consistent(s) && Run(s, events).Some? && InOrder(s.log, 0, if s.active then s.issued - 1 else s.issued)
    ensures var last := Run(s, events).value;
            InOrder(last.log, 0, if last.active then last.issued - 1 else last.issued)
    decreases |events|
  {
    if events != [] {
      StepConsistent(s, events[0]);
      CompletedOnce(Step(s, events[0]).value, events[1..]);
    }
  }

  /** Every history of the object from its start. */
  lemma ExactlyOnce(events: seq<Event>)
    requires Run(IDLE, events).Some?
    ensures var last := Run(IDLE, events).value;
            && (last.client.Some? <==> last.active)
            && last.log == Completions(events, 0)
            && InOrder(last.log, 0, if last.active then last.issued - 1 else last.issued)
  {
    RunCompletes(IDLE, events);
    CompletedOnce(IDLE, events);
    assert IDLE.log + Pending(IDLE, events) == [];
  }

  // ---------------------------------------------------------------------------
  // Who is refused
  // ---------------------------------------------------------------------------

  /** Clients make one request at a time. To an idle object: a silent installation or
      uninstallation from a client without the capability is completed at once with
      KErrPermissionDenied; any other request makes the object active with its client
      waiting. */
  lemma RequestMeans(s: State, kind: Kind, silent: bool, trustedUi: bool)
    requires Consistent(s)
    ensures var next := Step(s, Request(kind, silent, trustedUi));
            if s.active then next == None
            else
              && next.Some? && Consistent(next.value) && next.value.issued == s.issued + 1
              && if (kind == Install || kind == Uninstall) && silent && !trustedUi then
                   !next.value.active && next.value.client == None && next.value.log == s.log + [(s.issued, -46)]
                 else next.value.active && next.value.client == Some(s.issued) && next.value.status == None && next.value.log == s.log
  {
  }

  /** The other events, on an object that serves a request: the server's first answer is
      kept and its code goes to the client when the object is run or cancelled; without
      an answer a cancellation tells the client KErrCancel. An idle object has nothing to
      answer or to run, and is not touched by a cancellation. */
  lemma EventsMean(s: State, code: int)
    requires Consistent(s)
    ensures !s.active ==> Step(s, Answer(code)) == None && Step(s, Dispatch) == None && Step(s, Cancel) == Some(s)
    ensures s.active && s.status == None ==>
              && Step(s, Answer(code)) == Some(State(s.client, true, Some(code), s.issued, s.log))
              && Step(s, Dispatch) == None
              && Told(s, Step(s, Cancel), -3)
    ensures s.active && s.status.Some? ==>
              && Step(s, Answer(code)) == None
              && Told(s, Step(s, Dispatch), s.status.value) && Told(s, Step(s, Cancel), s.status.value)
  {
  }

  /** The client that was waiting has been told this, and nobody waits any more. */
  predicate Told(s: State, next: Option<State>, code: int)
    requires s.client.Some?
  {
    next.Some? && !next.value.active && next.value.client == None && next.value.issued == s.issued && next.value.log == s.log + [(s.client.value, code)]
  }

  /** The n-th request among the events. */
  function RequestNo(events: seq<Event>, n: nat): Option<Event>
    decreases |events|
  {
    if events == [] then None
    else if !events[0].Request? then RequestNo(events[1..], n)
    else if n == 0 then Some(events[0])
    else RequestNo(events[1..], n - 1)
  }

  /** No silent installation or uninstallation without the capability is ever the
      request that is being served. */
  lemma {:induction false} ServedIsAllowed(s: State, events: seq<Event>)
    requires Consistent(s) && Run(s, events).Some?
    ensures var last := Run(s, events).value;
            last.client.Some? && last.client.value >= s.issued ==>
              var r := RequestNo(events, last.client.value - s.issued);
              r.Some? && r.value.Request? && !((r.value.kind == Install || r.value.kind == Uninstall) && r.value.silent && !r.value.trustedUi)
    ensures Run(s, events).value.issued >= s.issued
    decreases |events|
  {
    if events != [] {
      var next := Step(s, events[0]).value;
      StepConsistent(s, events[0]);
      ServedIsAllowed(next, events[1..]);
      var last := Run(s, events).value;
      if last.client == Some(s.issued) && events[0].Request? {
        StaysServed(next, events[1..]);
      }
    }
  }

  /** A request that is not being served any more is not served again. */
  lemma {:induction false} StaysServed(s: State, events: seq<Event>)
    requires Consistent(s) && Run(s, events).Some?
    ensures var last := Run(s, events).value;
            last.client.Some? ==> last.client.value >= s.issued || last.client == s.client
    ensures Run(s, events).value.issued >= s.issued
    decreases |events|
  {
    if events != [] {
      StepConsistent(s, events[0]);
      StaysServed(Step(s, events[0]).value, events[1..]);
    }
  }

  lemma {:induction false} LogGrows(s: State, events: seq<Event>)
    requires Run(s, events).Some?
    ensures s.log <= Run(s, events).value.log
    decreases |events|
  {
    if events != [] {
      LogGrows(Step(s, events[0]).value, events[1..]);
    }
  }

  /** Each such request is told KErrPermissionDenied. */
  lemma {:induction false} DeniedIsTold(s: State, events: seq<Event>, n: nat)
    requires Consistent(s) && Run(s, events).Some? && RequestNo(events, n).Some?
    requires var r := RequestNo(events, n).value; r.Request? && (r.kind == Install || r.kind == Uninstall) && r.silent && !r.trustedUi
    ensures (s.issued + n, -46) in Run(s, events).value.log
    decreases |events|
  {
    var next := Step(s, events[0]).value;
    StepConsistent(s, events[0]);
    if events[0].Request? && n == 0 {
      LogGrows(next, events[1..]);
      assert next.log[|s.log|] == (s.issued, -46);
      assert Run(s, events).value.log[|s.log|] == (s.issued, -46);
    } else {
      DeniedIsTold(next, events[1..], if events[0].Request? then n - 1 else n);
    }
  }

  // ---------------------------------------------------------------------------
  // The object
  // ---------------------------------------------------------------------------

  /** A client's status word, and how often it has been completed. */
  class RequestStatus {
    var value: int
    ghost var completions: nat

    constructor ()
      ensures value == REQUEST_PENDING && completions == 0
    {
      value := REQUEST_PENDING;
      completions := 0;
    }

    method Complete(code: int)
      modifies this
      ensures value == code && completions == old(completions) + 1
    {
      value := code;
      completions := completions + 1;
    }
  }

  class PluginActiveImpl {
    var iClientStatus: RequestStatus?
    var iStatus: int
    var iActive: bool
    ghost var issued: nat
    ghost var log: seq<(nat, int)>

    ghost function Value(): State
      reads this
    {
      State(if iClientStatus == null || issued == 0 then None else Some(issued - 1), iActive,
            if iStatus == REQUEST_PENDING then None else Some(iStatus), issued, log)
    }

    /** A client is waiting, and has not been completed, exactly while the object is active. */
    ghost predicate Valid()
      reads this, iClientStatus
    {
      && (iClientStatus != null <==> iActive)
      && (iClientStatus != null ==> issued > 0 && iClientStatus.completions == 0 && iClientStatus.value == REQUEST_PENDING)
      && (!iActive ==> iStatus != REQUEST_PENDING)
    }

    constructor ()
      ensures Valid() && !iActive && issued == 0 && log == []
    {
      iClientStatus := null;
      iStatus := ERR_NONE;
      iActive := false;
      issued := 0;
      log := [];
    }

    /** Takes a request in, or completes it at once when it is not permitted. The
        completion clears the pointer. */
    method CommonRequestPreamble(silent: bool, trustedUi: bool, aStatus: RequestStatus) returns (ok: bool)
      requires Valid() && !iActive && aStatus.completions == 0
      modifies this`iClientStatus, this`issued, this`log, aStatus
      ensures ok == !(silent && !trustedUi)
      ensures issued == old(issued) + 1
      ensures if ok then iClientStatus == aStatus && aStatus.value == REQUEST_PENDING && aStatus.completions == 0 && log == old(log)
              else iClientStatus == null && aStatus.value == ERR_PERMISSION_DENIED && aStatus.completions == 1
                   && log == old(log) + [(old(issued), ERR_PERMISSION_DENIED)]
    {
      aStatus.value := REQUEST_PENDING;
      iClientStatus := aStatus;
      issued := issued + 1;
      if silent {
        if !trustedUi {
          iClientStatus.Complete(ERR_PERMISSION_DENIED);
          iClientStatus := null;
          log := log + [(issued - 1, ERR_PERMISSION_DENIED)];
          return false;
        }
      }
      return true;
    }

    /** Passes the request on. */
    method Submit()
      requires !iActive
      modifies this`iStatus, this`iActive
      ensures iStatus == REQUEST_PENDING && iActive
    {
      iStatus := REQUEST_PENDING;
      iActive := true;
    }

    /** Any of the request methods: those that take arguments for the user interface
        check them first. */
    method Request(kind: Kind, silent: bool, trustedUi: bool, aStatus: RequestStatus)
      requires Valid() && !iActive && aStatus.completions == 0
      modifies this, aStatus
      ensures Valid()
      ensures if (kind == Install || kind == Uninstall) && silent && !trustedUi then
                !iActive && aStatus.completions == 1 && aStatus.value == ERR_PERMISSION_DENIED
              else iActive && iClientStatus == aStatus && aStatus.completions == 0
      ensures Step(old(Value()), Event.Request(kind, silent, trustedUi)) == Some(Value())
    {
      if kind == Install || kind == Uninstall {
        var ok := CommonRequestPreamble(silent, trustedUi, aStatus);
        if ok {
          Submit();
        }
      } else {
        aStatus.value := REQUEST_PENDING;
        iClientStatus := aStatus;
        issued := issued + 1;
        Submit();
      }
    }

    /** The server's answer arrives. */
    method Answer(code: int)
      requires Valid() && iActive && iStatus == REQUEST_PENDING && code != REQUEST_PENDING
      modifies this`iStatus
      ensures Valid() && Step(old(Value()), Event.Answer(code)) == Some(Value())
    {
      iStatus := code;
    }

    /** The scheduler marks the object inactive and runs it. */
    method RunL()
      requires Valid() && iActive && iStatus != REQUEST_PENDING
      modifies this, iClientStatus
      ensures Valid() && !iActive
      ensures old(iClientStatus).completions == 1 && old(iClientStatus).value == iStatus == old(iStatus)
      ensures Step(old(Value()), Dispatch) == Some(Value())
    {
      iActive := false;
      var res := iStatus;
      iClientStatus.Complete(res);
      iClientStatus := null;
      log := log + [(issued - 1, res)];
    }

    /** The server completes an outstanding request with KErrCancel before it answers
        the cancellation. */
    method CancelOperation()
      modifies this`iStatus
      ensures iStatus == if old(iStatus) == REQUEST_PENDING then ERR_CANCEL else old(iStatus)
    {
      if iStatus == REQUEST_PENDING {
        iStatus := ERR_CANCEL;
      }
    }

    method DoCancel()
      requires Valid() && iActive
      modifies this, iClientStatus
      ensures iClientStatus == null && iActive && issued == old(issued)
      ensures iStatus == if old(iStatus) == REQUEST_PENDING then ERR_CANCEL else old(iStatus)
      ensures old(iClientStatus).completions == 1 && old(iClientStatus).value == iStatus
      ensures log == old(log) + [(issued - 1, iStatus)]
    {
      assert iClientStatus != null;
      CancelOperation();
      iClientStatus.Complete(iStatus);
      iClientStatus := null;
      log := log + [(issued - 1, iStatus)];
    }

    /** Cancelling an object that is not active does nothing. */
    method Cancel()
      requires Valid()
      modifies this, iClientStatus
      ensures Valid() && !iActive
      ensures old(iActive) ==> old(iClientStatus).completions == 1 && old(iClientStatus).value == iStatus
      ensures Step(old(Value()), Event.Cancel) == Some(Value())
    {
      if iActive {
        DoCancel();
        iActive := false;
      }
    }
  }
}
