/** SyncServer: a blocking server that owns one listening descriptor and
    answers every accepted client with the same precomputed response. The
    results of the system calls it makes are inputs: a SetupOutcomes record
    for init, and for start one LoopCheck per evaluation of the loop
    condition (the value of the stop flag and, when it is clear, what accept
    returns). */
module Server {
  import opened Kernel
  import opened HttpResponse

  /** A TCP port, as the uint16_t that init takes. */
  type Port = p: nat | p < 0x1_0000

  /** The backlog init passes to listen. */
  const Backlog: nat := 10
  /** SO_RCVTIMEO on the listening socket: one second, zero microseconds. */
  const AcceptTimeout := ReceiveTimeout(1, 0)

  // ----- init -----

  /** The values the calls made by init return, chosen by the environment:
      the descriptor from socket, then the return value of each setsockopt,
      of bind and of listen (negative means failure). */
  datatype SetupOutcomes = SetupOutcomes(
    socket: SocketResult,
    reuseAddr: int,
    reusePort: int,
    receiveTimeout: int,
    bind: int,
    listen: int)

  /** The five calls init makes on a new descriptor, in order. */
  function SetupSequence(fd: int, port: Port): seq<Call> {
    [ SetOptionCall(fd, ReuseAddr), SetOptionCall(fd, ReusePort),
      SetOptionCall(fd, AcceptTimeout), BindCall(fd, port), ListenCall(fd, Backlog) ]
  }

  /** The results of those five calls, in the same order. */
  function StepResults(o: SetupOutcomes): seq<int> {
    [o.reuseAddr, o.reusePort, o.receiveTimeout, o.bind, o.listen]
  }

  /** The index of the first failing (negative) result; |results| when none fails. */
  function FirstFailure(results: seq<int>): (k: nat)
    ensures k <= |results|
    ensures forall j :: 0 <= j < k ==> results[j] >= 0
    ensures k < |results| ==> results[k] < 0
  {
    if results == [] then 0
    else if results[0] < 0 then 0
    else 1 + FirstFailure(results[1..])
  }

  lemma FirstFailureIs(results: seq<int>, n: nat)
    requires n < |results| && results[n] < 0
    requires forall j :: 0 <= j < n ==> results[j] >= 0
    ensures FirstFailure(results) == n
  {
  }

  predicate SetupSucceeds(o: SetupOutcomes) {
    o.socket.Opened? && FirstFailure(StepResults(o)) == |StepResults(o)|
  }

  /** The calls init issues on an uninitialised server: socket; then, if it
      gave a descriptor, the setup steps in order up to and including the
      first one that fails; after a failure, the close of that descriptor. */
  function InitCalls(port: Port, o: SetupOutcomes): seq<Call> {
    match o.socket
    case SocketFailed => [SocketCall(-1)]
    case Opened(fd) =>
      var k := FirstFailure(StepResults(o));
      if k == 5 then [SocketCall(fd)] + SetupSequence(fd, port)
      else [SocketCall(fd)] + SetupSequence(fd, port)[..k + 1] + [CloseCall(fd)]
  }

  predicate IsSetupStep(c: Call) {
    c.SetOptionCall? || c.BindCall? || c.ListenCall?
  }

  /** setsockopt, bind and listen neither open nor close descriptors. */
  lemma {:induction false} SetupStepsKeepTable(open: set<int>, calls: seq<Call>)
    requires forall j :: 0 <= j < |calls| ==> IsSetupStep(calls[j])
    ensures Effect(open, calls) == open
  {
    if calls != [] {
      SetupStepsKeepTable(open, calls[..|calls| - 1]);
    }
  }

  /** No leak: init leaves the descriptor table as it found it, except for
      the listening descriptor when every step succeeded. */
  lemma InitNoLeak(open: set<int>, port: Port, o: SetupOutcomes)
    requires o.socket.Opened? ==> o.socket.fd !in open
    ensures Effect(open, InitCalls(port, o))
            == if SetupSucceeds(o) then open + {o.socket.fd} else open
  {
    if o.socket.Opened? {
      var fd := o.socket.fd;
      var k := FirstFailure(StepResults(o));
      ghost var results := StepResults(o);
      var steps := if k == 5 then SetupSequence(fd, port) else SetupSequence(fd, port)[..k + 1];
      EffectSnoc(open, [], SocketCall(fd));
      EffectAppend(open, [SocketCall(fd)], steps);
      SetupStepsKeepTable(open + {fd}, steps);
      if k < 5 {
        EffectSnoc(open, [SocketCall(fd)] + steps, CloseCall(fd));
        assert open + {fd} - {fd} == open;
      }
    } else {
      EffectSnoc(open, [], SocketCall(-1));
    }
  }

  // ----- start -----

  /** One evaluation of the loop condition: the stop flag is set, or it is
      clear and accept then returns the given result. */
  datatype LoopCheck = StopRequested | Proceed(accept: AcceptResult)

  /** What start returns. The model follows a finite prefix of a run, so a
      loop still going when the checks run out is StillRunning. */
  datatype StartResult = Returned(ok: bool) | StillRunning

  predicate IsTransient(e: Errno) {
    e == EAGAIN || e == EWOULDBLOCK
  }

  /** The client descriptors the kernel hands out are not open already. */
  ghost predicate ClientsFresh(checks: seq<LoopCheck>, open: set<int>) {
    forall j :: 0 <= j < |checks| && checks[j].Proceed? && checks[j].accept.Connection?
      ==> checks[j].accept.client !in open
  }

  /** What start returns on an initialised server. */
  function Outcome(checks: seq<LoopCheck>): StartResult {
    if checks == [] then StillRunning
    else match checks[0]
      case StopRequested => Returned(true)
      case Proceed(Connection(_)) => Outcome(checks[1..])
      case Proceed(AcceptFailed(e)) =>
        if IsTransient(e) then Outcome(checks[1..])
        else if e == EINTR then Returned(true)
        else Returned(false)
  }

  /** The calls start issues on an initialised server: per iteration one
      accept, and for a connection a send of the whole response to that
      client followed at once by its close. */
  function ServeCalls(listener: int, response: string, checks: seq<LoopCheck>): seq<Call> {
    if checks == [] then []
    else match checks[0]
      case StopRequested => []
      case Proceed(Connection(c)) =>
        [AcceptCall(listener, c), SendCall(c, response), CloseCall(c)]
        + ServeCalls(listener, response, checks[1..])
      case Proceed(AcceptFailed(e)) =>
        [AcceptCall(listener, -1)]
        + if IsTransient(e) then ServeCalls(listener, response, checks[1..]) else []
  }

  /** Does the loop go round again after this check? */
  predicate Continues(c: LoopCheck) {
    c.Proceed? && (c.accept.Connection? || IsTransient(c.accept.errno))
  }

  /** The loop ends at the first check that does not continue: with true when
      the stop flag was set or accept was interrupted, with false on any
      other accept error. */
  lemma {:induction false} OutcomeAtFirstExit(checks: seq<LoopCheck>, k: nat)
    requires k < |checks| && !Continues(checks[k])
    requires forall j :: 0 <= j < k ==> Continues(checks[j])
    ensures Outcome(checks)
            == Returned(checks[k].StopRequested? || checks[k].accept.errno == EINTR)
  {
    if k > 0 {
      OutcomeAtFirstExit(checks[1..], k - 1);
    }
  }

  /** While every check continues, start has not returned. */
  lemma {:induction false} OutcomeWhileContinuing(checks: seq<LoopCheck>)
    requires forall j :: 0 <= j < |checks| ==> Continues(checks[j])
    ensures Outcome(checks) == StillRunning
  {
    if checks != [] {
      OutcomeWhileContinuing(checks[1..]);
    }
  }

  /** Every send start issues hands the whole response to a client that the
      accept just before it returned, and is followed at once by the close
      of that client. */
  lemma {:induction false} SendFollowsAcceptAndPrecedesClose(
    listener: int, response: string, checks: seq<LoopCheck>, k: nat)
    requires k < |ServeCalls(listener, response, checks)|
    requires ServeCalls(listener, response, checks)[k].SendCall?
    ensures var calls := ServeCalls(listener, response, checks);
      var c := calls[k].fd;
      && calls[k].data == response
      && 1 <= k && calls[k - 1] == AcceptCall(listener, c)
      && k + 1 < |calls| && calls[k + 1] == CloseCall(c)
  {
    var calls := ServeCalls(listener, response, checks);
    var rest := ServeCalls(listener, response, checks[1..]);
    match checks[0]
    case StopRequested =>
    case Proceed(Connection(c)) =>
      if k >= 3 {
        assert calls[k] == rest[k - 3];
        SendFollowsAcceptAndPrecedesClose(listener, response, checks[1..], k - 3);
        assert calls[k - 1] == rest[k - 4] && calls[k + 1] == rest[k - 2];
      }
    case Proceed(AcceptFailed(e)) =>
      if IsTransient(e) {
        assert calls[k] == rest[k - 1];
        SendFollowsAcceptAndPrecedesClose(listener, response, checks[1..], k - 1);
        assert calls[k + 1] == rest[k];
        if k >= 2 {
          assert calls[k - 1] == rest[k - 2];
        }
      }
  }

  /** Conversely, every accept of start that returns a client is followed at
      once by a send of the whole response to that client and then by its
      close. */
  lemma {:induction false} AcceptedClientIsServed(
    listener: int, response: string, checks: seq<LoopCheck>, k: nat)
    requires k < |ServeCalls(listener, response, checks)|
    requires ServeCalls(listener, response, checks)[k].AcceptCall?
    requires ServeCalls(listener, response, checks)[k].result >= 0
    ensures var calls := ServeCalls(listener, response, checks);
      var c := calls[k].result;
      && calls[k].listener == listener
      && k + 2 < |calls|
      && calls[k + 1] == SendCall(c, response)
      && calls[k + 2] == CloseCall(c)
  {
    var calls := ServeCalls(listener, response, checks);
    var rest := ServeCalls(listener, response, checks[1..]);
    match checks[0]
    case StopRequested =>
    case Proceed(Connection(c)) =>
      if k >= 3 {
        assert calls[k] == rest[k - 3];
        AcceptedClientIsServed(listener, response, checks[1..], k - 3);
        assert calls[k + 1] == rest[k - 2] && calls[k + 2] == rest[k - 1];
      }
    case Proceed(AcceptFailed(e)) =>
      if IsTransient(e) && k >= 1 {
        assert calls[k] == rest[k - 1];
        AcceptedClientIsServed(listener, response, checks[1..], k - 1);
        assert calls[k + 1] == rest[k] && calls[k + 2] == rest[k + 1];
      }
  }

  /** No client descriptor outlives its iteration: the calls start issues
      leave the descriptor table as they found it. */
  lemma {:induction false} ServeNoLeak(
    open: set<int>, listener: int, response: string, checks: seq<LoopCheck>)
    requires ClientsFresh(checks, open)
    ensures Effect(open, ServeCalls(listener, response, checks)) == open
  {
    if checks != [] {
      var rest := ServeCalls(listener, response, checks[1..]);
      assert ClientsFresh(checks[1..], open) by {
        forall j | 0 <= j < |checks[1..]| ensures checks[1..][j] == checks[j + 1] { }
      }
      match checks[0]
      case StopRequested =>
      case Proceed(Connection(c)) =>
        var iteration := [AcceptCall(listener, c), SendCall(c, response), CloseCall(c)];
        assert c !in open by { assert checks[0].accept.client == c; }
        EffectSnoc(open, [], AcceptCall(listener, c));
        EffectSnoc(open, [AcceptCall(listener, c)], SendCall(c, response));
        assert [AcceptCall(listener, c)] + [SendCall(c, response)] + [CloseCall(c)] == iteration;
        EffectSnoc(open, [AcceptCall(listener, c)] + [SendCall(c, response)], CloseCall(c));
        assert Effect(open, iteration) == open;
        EffectAppend(open, iteration, rest);
        ServeNoLeak(open, listener, response, checks[1..]);
      case Proceed(AcceptFailed(e)) =>
        EffectSnoc(open, [], AcceptCall(listener, -1));
        if IsTransient(e) {
          EffectAppend(open, [AcceptCall(listener, -1)], rest);
          ServeNoLeak(open, listener, response, checks[1..]);
        } else {
          assert ServeCalls(listener, response, checks) == [] + [AcceptCall(listener, -1)];
        }
    }
  }

  /** One pass of the loop: how the check at position i determines the
      outcome and the calls from there on. */
  lemma LoopStep(listener: int, response: string, checks: seq<LoopCheck>, i: nat)
    requires i < |checks|
    ensures checks[i].StopRequested? ==>
      Outcome(checks[i..]) == Returned(true) && ServeCalls(listener, response, checks[i..]) == []
    ensures checks[i].Proceed? && checks[i].accept.Connection? ==>
      var c := checks[i].accept.client;
      && Outcome(checks[i..]) == Outcome(checks[i + 1..])
      && ServeCalls(listener, response, checks[i..])
         == [AcceptCall(listener, c), SendCall(c, response), CloseCall(c)]
            + ServeCalls(listener, response, checks[i + 1..])
    ensures checks[i].Proceed? && checks[i].accept.AcceptFailed? ==>
      var e := checks[i].accept.errno;
      && Outcome(checks[i..])
         == (if IsTransient(e) then Outcome(checks[i + 1..]) else Returned(e == EINTR))
      && ServeCalls(listener, response, checks[i..])
         == [AcceptCall(listener, -1)]
            + (if IsTransient(e) then ServeCalls(listener, response, checks[i + 1..]) else [])
  {
  }

  // ----- the server object -----

  class SyncServer {
    /** The kernel the process talks to. */
    const os: Os
    /** serverFileDescriptor_: -1 until init succeeds. */
    var listener: int
    /** response_: the bytes sent to every client. */
    var response: string

    /** The field is -1 or a descriptor that is open. */
    ghost predicate Valid()
      reads this, os
    {
      listener == -1 || (listener >= 0 && listener in os.open)
    }

    constructor (os: Os)
      ensures Valid() && this.os == os && listener == -1 && response == ""
    {
      this.os := os;
      listener := -1;
      response := "";
    }

    /** ~SyncServer: closes the listening descriptor if there is one. */
    method Dispose()
      requires Valid()
      modifies this`listener, os
      ensures Valid() && listener == -1
      ensures os.log == if old(listener) != -1 then old(os.log) + [CloseCall(old(listener))]
                        else old(os.log)
      ensures os.open == if old(listener) != -1 then old(os.open) - {old(listener)}
                         else old(os.open)
      ensures os.errno == old(os.errno)
    {
      if listener != -1 {
        os.Close(listener);
        listener := -1;
      }
    }

    /** init: opens, configures, binds and listens on the listening socket.
        Signal registration is not part of the model. */
    method Init(port: Port, o: SetupOutcomes) returns (ok: bool)
      requires Valid()
      requires o.socket.Opened? ==> o.socket.fd !in os.open
      modifies this`listener, os
      ensures Valid() && os.errno == old(os.errno)
      ensures old(listener) != -1 ==> !ok && os.log == old(os.log)
      ensures old(listener) == -1 ==> os.log == old(os.log) + InitCalls(port, o)
      ensures old(listener) == -1 ==>
                (ok <==> o.socket.Opened? && o.reuseAddr >= 0 && o.reusePort >= 0
                         && o.receiveTimeout >= 0 && o.bind >= 0 && o.listen >= 0)
      ensures ok ==> listener == o.socket.fd && listener !in old(os.open)
                     && os.open == old(os.open) + {listener}
      ensures !ok ==> listener == old(listener) && os.open == old(os.open)
    {
      if listener != -1 {
        return false;
      }
      listener := os.Socket(o.socket);
      if listener < 0 {
        return false;
      }
      ok := Configure(port, o);
      if ok {
        return true;
      }
      // the error label: undo the socket call
      os.Close(listener);
      listener := -1;
      return false;
    }

    /** The fallible setup steps on the new descriptor, in order; the first
        failure stops the sequence (the jumps to the error label). */
    method Configure(port: Port, o: SetupOutcomes) returns (ok: bool)
      requires listener >= 0 && listener in os.open
      modifies os
      ensures os.open == old(os.open) && os.errno == old(os.errno)
      ensures ok == (o.reuseAddr >= 0 && o.reusePort >= 0 && o.receiveTimeout >= 0
                     && o.bind >= 0 && o.listen >= 0)
      ensures ok == (FirstFailure(StepResults(o)) == 5)
      ensures os.log == old(os.log) + SetupSequence(listener, port)[
                          ..if ok then 5 else FirstFailure(StepResults(o)) + 1]
    {
      ghost var results, steps := StepResults(o), SetupSequence(listener, port);
      var r := os.SetOption(listener, ReuseAddr, o.reuseAddr);
      assert os.log == old(os.log) + steps[..1];
      if r < 0 {
        FirstFailureIs(results, 0);
        return false;
      }
      r := os.SetOption(listener, ReusePort, o.reusePort);
      assert os.log == old(os.log) + steps[..2];
      if r < 0 {
        FirstFailureIs(results, 1);
        return false;
      }
      r := os.SetOption(listener, AcceptTimeout, o.receiveTimeout);
      assert os.log == old(os.log) + steps[..3];
      if r < 0 {
        FirstFailureIs(results, 2);
        return false;
      }
      r := os.Bind(listener, port, o.bind);
      assert os.log == old(os.log) + steps[..4];
      if r < 0 {
        FirstFailureIs(results, 3);
        return false;
      }
      r := os.Listen(listener, Backlog, o.listen);
      assert os.log == old(os.log) + steps[..5];
      if r < 0 {
        FirstFailureIs(results, 4);
        return false;
      }
      return true;
    }

    /** load: replaces response_ by the response for this content. */
    method Load(content: string)
      modifies this`response
      ensures response == Response(content)
    {
      response := Response(content);
    }

    /** One served client: the whole response is handed to send, then the
        client descriptor is closed. The result of send is ignored. */
    method Respond(client: int)
      requires client in os.open
      modifies os
      ensures os.log == old(os.log) + [SendCall(client, response), CloseCall(client)]
      ensures os.open == old(os.open) - {client} && os.errno == old(os.errno)
    {
      os.Send(client, response);
      os.Close(client);
    }

    /** start: the accept loop. Each pass reads the stop flag, accepts one
        client, hands it the whole response and closes it. */
    method Start(checks: seq<LoopCheck>) returns (r: StartResult)
      requires Valid()
      requires ClientsFresh(checks, os.open)
      modifies os
      ensures Valid() && os.open == old(os.open)
      ensures listener == -1 ==> r == Returned(false) && os.log == old(os.log)
      ensures listener != -1 ==>
                r == Outcome(checks)
                && os.log == old(os.log) + ServeCalls(listener, response, checks)
    {
      if listener == -1 {
        return Returned(false);
      }
      var i := 0;
      while i < |checks|
        invariant 0 <= i <= |checks|
        invariant os.open == old(os.open)
        invariant Outcome(checks) == Outcome(checks[i..])
        invariant old(os.log) + ServeCalls(listener, response, checks)
                  == os.log + ServeCalls(listener, response, checks[i..])
      {
        LoopStep(listener, response, checks, i);
        ghost var before, next := os.log, ServeCalls(listener, response, checks[i + 1..]);
        if checks[i].StopRequested? {
          break;
        }
        var client := os.Accept(listener, checks[i].accept);
        if client < 0 {
          assert before + [AcceptCall(listener, -1)] + next
                 == before + ([AcceptCall(listener, -1)] + next);
          if os.errno == EAGAIN || os.errno == EWOULDBLOCK {
            i := i + 1;
            continue;
          } else if os.errno == EINTR {
            break;
          }
          return Returned(false);
        }
        assert client !in old(os.open) by {
          assert checks[i].Proceed? && checks[i].accept.Connection?;
        }
        Respond(client);
        assert os.log + next
               == before + ([AcceptCall(listener, client), SendCall(client, response), CloseCall(client)] + next);
        assert os.open == old(os.open) + {client} - {client} == old(os.open);
        i := i + 1;
      }
      if i == |checks| {
        return StillRunning;
      }
      return Returned(true);
    }
  }

  /** A whole lifetime, as the destructor ends it: after a successful init,
      a run of start and the destructor's close, the descriptor table is
      exactly what it was before init. */
  lemma LifetimeNoLeak(
    open: set<int>, port: Port, o: SetupOutcomes, response: string, checks: seq<LoopCheck>)
    requires SetupSucceeds(o) && o.socket.fd !in open
    requires ClientsFresh(checks, open + {o.socket.fd})
    ensures var fd := o.socket.fd;
      Effect(open, InitCalls(port, o) + ServeCalls(fd, response, checks) + [CloseCall(fd)]) == open
  {
    var fd := o.socket.fd;
    InitNoLeak(open, port, o);
    EffectAppend(open, InitCalls(port, o), ServeCalls(fd, response, checks));
    ServeNoLeak(open + {fd}, fd, response, checks);
    EffectSnoc(open, InitCalls(port, o) + ServeCalls(fd, response, checks), CloseCall(fd));
    assert open + {fd} - {fd} == open;
  }
}
