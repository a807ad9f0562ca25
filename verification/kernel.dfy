/** The part of the operating system that SyncServer talks to, reduced to
    what the server's correctness depends on: which descriptors are open,
    which calls were issued in which order, and the errno a failing accept
    leaves behind. What each call returns is decided by the caller's input
    (an oracle), not computed here. */
module Kernel {

  /** The errno values the accept loop tells apart. */
  datatype Errno = EAGAIN | EWOULDBLOCK | EINTR | OtherErrno(code: nat)

  datatype SocketOption =
    | ReuseAddr
    | ReusePort
    | ReceiveTimeout(seconds: nat, microseconds: nat)

  /** What socket(2) returns: a new descriptor, or failure (-1). */
  datatype SocketResult = Opened(fd: nat) | SocketFailed

  /** What accept(2) returns: a new client descriptor, or -1 with errno. */
  datatype AcceptResult = Connection(client: nat) | AcceptFailed(errno: Errno)

  /** One system call as the process issued it; calls that create a
      descriptor record the value they returned. */
  datatype Call =
    | SocketCall(result: int)
    | SetOptionCall(fd: int, option: SocketOption)
    | BindCall(fd: int, port: nat)
    | ListenCall(fd: int, backlog: nat)
    | AcceptCall(listener: int, result: int)
    | SendCall(fd: int, data: string)
    | CloseCall(fd: int)

  /** How one call changes the set of open descriptors. */
  function Apply(open: set<int>, c: Call): set<int> {
    match c
    case SocketCall(r) => if r >= 0 then open + {r} else open
    case AcceptCall(_, r) => if r >= 0 then open + {r} else open
    case CloseCall(fd) => open - {fd}
    case _ => open
  }

  /** The open descriptors after a sequence of calls, starting from `open`. */
  function Effect(open: set<int>, calls: seq<Call>): set<int>
    decreases |calls|
  {
    if calls == [] then open
    else Apply(Effect(open, calls[..|calls| - 1]), calls[|calls| - 1])
  }

  lemma EffectSnoc(open: set<int>, calls: seq<Call>, c: Call)
    ensures Effect(open, calls + [c]) == Apply(Effect(open, calls), c)
  {
  }

  /** Running two call sequences one after the other composes their effects. */
  lemma {:induction false} EffectAppend(open: set<int>, a: seq<Call>, b: seq<Call>)
    ensures Effect(open, a + b) == Effect(Effect(open, a), b)
  {
    if b == [] {
      assert a + b == a;
    } else {
      var front := b[..|b| - 1];
      EffectAppend(open, a, front);
      assert a + b == (a + front) + [b[|b| - 1]];
      EffectSnoc(open, a + front, b[|b| - 1]);
      EffectSnoc(Effect(open, a), front, b[|b| - 1]);
      assert b == front + [b[|b| - 1]];
    }
  }

  /** The process's view of the kernel: the set of open descriptors, the
      calls issued so far, and errno. Every method below changes `open`
      exactly as Apply does for the call it appends to `log`. */
  class Os {
    ghost var open: set<int>
    ghost var log: seq<Call>
    /** The thread's errno. In this model only a failing accept sets it. */
    var errno: Errno

    /** `open` holds the descriptors that were open before the server ran. */
    constructor (ghost open: set<int>)
      ensures this.open == open && log == []
    {
      this.open := open;
      log := [];
      errno := OtherErrno(0);
    }

    /** socket(AF_INET, SOCK_STREAM, 0). The kernel never hands out a
        descriptor that is already open. */
    method Socket(outcome: SocketResult) returns (fd: int)
      requires outcome.Opened? ==> outcome.fd !in open
      modifies this
      ensures fd == if outcome.Opened? then outcome.fd else -1
      ensures log == old(log) + [SocketCall(fd)] && errno == old(errno)
      ensures open == if fd >= 0 then old(open) + {fd} else old(open)
    {
      fd := if outcome.Opened? then outcome.fd else -1;
      log := log + [SocketCall(fd)];
      if fd >= 0 {
        open := open + {fd};
      }
    }

    /** setsockopt on an open descriptor; `result` is its return value. */
    method SetOption(fd: int, option: SocketOption, result: int) returns (r: int)
      requires fd in open
      modifies this
      ensures r == result
      ensures log == old(log) + [SetOptionCall(fd, option)] && errno == old(errno)
      ensures open == old(open)
    {
      r := result;
      log := log + [SetOptionCall(fd, option)];
    }

    method Bind(fd: int, port: nat, result: int) returns (r: int)
      requires fd in open
      modifies this
      ensures r == result
      ensures log == old(log) + [BindCall(fd, port)] && errno == old(errno)
      ensures open == old(open)
    {
      r := result;
      log := log + [BindCall(fd, port)];
    }

    method Listen(fd: int, backlog: nat, result: int) returns (r: int)
      requires fd in open
      modifies this
      ensures r == result
      ensures log == old(log) + [ListenCall(fd, backlog)] && errno == old(errno)
      ensures open == old(open)
    {
      r := result;
      log := log + [ListenCall(fd, backlog)];
    }

    /** accept on the listening descriptor. A new client descriptor is never
        one that is already open; on failure the result is -1 and errno
        says why. */
    method Accept(listener: int, outcome: AcceptResult) returns (client: int)
      requires listener in open
      requires outcome.Connection? ==> outcome.client !in open
      modifies this
      ensures client == if outcome.Connection? then outcome.client else -1
      ensures errno == if outcome.AcceptFailed? then outcome.errno else old(errno)
      ensures log == old(log) + [AcceptCall(listener, client)]
      ensures open == if client >= 0 then old(open) + {client} else old(open)
    {
      if outcome.Connection? {
        client := outcome.client;
      } else {
        client := -1;
        errno := outcome.errno;
      }
      log := log + [AcceptCall(listener, client)];
      if client >= 0 {
        open := open + {client};
      }
    }

    /** send: records the bytes handed to the kernel. Whether they all reach
        the peer is not modelled. */
    method Send(fd: int, data: string)
      requires fd in open
      modifies this
      ensures log == old(log) + [SendCall(fd, data)] && errno == old(errno)
      ensures open == old(open)
    {
      log := log + [SendCall(fd, data)];
    }

    /** close: only a descriptor that is open may be closed, so a double
        close cannot verify. */
    method Close(fd: int)
      requires fd in open
      modifies this
      ensures log == old(log) + [CloseCall(fd)] && errno == old(errno)
      ensures open == old(open) - {fd}
    {
      log := log + [CloseCall(fd)];
      open := open - {fd};
    }
  }
}
