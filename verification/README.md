# SyncServer in Dafny

A verified model of `SyncServer`, the blocking HTTP responder of the
WebServer repository (`source/SyncServer.h`). The server owns one listening
descriptor (`serverFileDescriptor_`, -1 until set up) and one precomputed
response (`response_`). `init` creates and configures the listening socket.
`load` builds the response from the page content. `start` runs the accept
loop: it sends the response to each client and closes the client at once.
The destructor closes the listening descriptor.

The model has four modules:

- `Decimal` (`decimal.dfy`): `std::to_string` of a size as a pure function
  on naturals. It renders canonical numerals and reads them back.
- `HttpResponse` (`response.dfy`): the response `load` builds, and a strict
  reader for it. The lemmas prove the round trip in both directions: the
  declared length is the body's size, and the body follows the first blank
  line.
- `Kernel` (`kernel.dfy`): the operating system as the server sees it. It
  holds a ghost set of open descriptors and a ghost log of the calls issued.
  It also holds `errno`. Each call's result is an input to the model, not
  something computed. `Effect` folds a call log into the descriptor table
  it leaves.
- `Server` (`sync_server.dfy`): the `SyncServer` class with `Init`, `Load`,
  `Start` and `Dispose` (the destructor). Its specification functions give
  the calls `init` and `start` issue (`InitCalls`, `ServeCalls`) and what
  `start` returns (`Outcome`). Lemmas prove the no-leak and ordering
  properties from them.

The inputs are:

- `init`: a `SetupOutcomes` record. It holds the descriptor `socket`
  returns (or failure) and the return value of each `setsockopt`, of `bind`
  and of `listen`.
- `start`: one `LoopCheck` per evaluation of the loop condition. Either
  the stop flag is set, or it is clear and `accept` returns the given
  result.

The kernel never hands out a descriptor that is already open. This promise
appears as a `requires` on these inputs.

`SyncServer.h` uses a blocking `accept` with a one-second `SO_RCVTIMEO`,
and it also sets `SO_REUSEPORT`. The model follows it.

## Model

| member | source | states |
|---|---|---|
| `HttpResponse.Response` | source/SyncServer.h:70-73 | the response begins with the status line "HTTP/1.1 200 OK", a CRLF and "Content-Length: ", and ends with the content itself; ParseResponse and ResponseOfParse pin the bytes between |
| `Decimal.ToDecimal` | source/SyncServer.h:71 | the rendered length is a canonical decimal numeral: at least one digit, all digits, no leading zero unless it is "0"; it is "0" exactly for zero |
| `Decimal.ValueOfToDecimal` | source/SyncServer.h:71 | reading the rendered digits back gives the size that was rendered |
| `Decimal.ToDecimalOfValue` | source/SyncServer.h:71 | every canonical numeral is the rendering of its own value, so rendering is a bijection onto canonical numerals |
| `Decimal.ToDecimalInjective` | source/SyncServer.h:71 | different sizes render to different digit strings |
| `HttpResponse.FindHeaderEnd` | source/SyncServer.h:72 | returns the first position of "\r\n\r\n" at or after the start position, or none when there is none |
| `HttpResponse.FirstHeaderEnd` | source/SyncServer.h:70-73 | in a built response the first "\r\n\r\n" is the one written after the length digits, because the status line, the header name and the digits contain none |
| `HttpResponse.ParseResponse` | source/SyncServer.h:70-73 | round trip: reading a built response gives a Content-Length equal to the content's size and a body equal to the content |
| `HttpResponse.ResponseOfParse` | source/SyncServer.h:70-73 | converse: any string the reader accepts whose declared length matches its body is exactly the response built for that body |
| `HttpResponse.ResponseInjective` | source/SyncServer.h:68-74 | the response determines the content, so two loads give equal responses only for equal contents |
| `Server.SyncServer.Load` | source/SyncServer.h:68-74 | response_ becomes the response for the new content and for nothing else: the new value does not depend on the old one, so a repeated load with the same content leaves the same state; the descriptor is untouched |
| `Server.SyncServer.constructor` | source/SyncServer.h:108-109 | a new server has descriptor -1 and an empty response |
| `Kernel.Os.Socket` | source/SyncServer.h:41 | socket returns a new descriptor that was not open and adds it to the open set, or returns -1 and opens nothing |
| `Kernel.Os.Accept` | source/SyncServer.h:86 | accept returns a new client descriptor that was not open and adds it to the open set, or returns -1, sets errno and opens nothing |
| `Kernel.Os.SetOption` | source/SyncServer.h:45-52 | setsockopt on an open descriptor is logged with its option and returns the given result, opening and closing nothing |
| `Kernel.Os.Bind` | source/SyncServer.h:54 | bind on an open descriptor is logged with its port and returns the given result, opening and closing nothing |
| `Kernel.Os.Listen` | source/SyncServer.h:57 | listen on an open descriptor is logged with its backlog and returns the given result, opening and closing nothing |
| `Kernel.Os.Send` | source/SyncServer.h:100 | send on an open descriptor is logged with exactly the bytes handed over and opens or closes nothing |
| `Kernel.Os.Close` | source/SyncServer.h:101 | only an open descriptor may be closed, and closing removes it from the open set |
| `Server.FirstFailure` | source/SyncServer.h:45-58 | gives the index of the first failing setup step: every earlier step succeeded and that step failed, or no step failed |
| `Server.SetupStepsKeepTable` | source/SyncServer.h:45-58 | setsockopt, bind and listen calls leave the set of open descriptors unchanged |
| `Server.InitNoLeak` | source/SyncServer.h:41-65 | the calls init issues leave the open set as it was, except that a fully successful init adds the listening descriptor |
| `Server.SyncServer.Configure` | source/SyncServer.h:45-58 | the three setsockopt calls, bind and listen(10) are issued in this order on the new descriptor, stopping after the first failure; the result is true iff all five succeed |
| `Server.SyncServer.Init` | source/SyncServer.h:23-66 | on a set-up server: false, with nothing changed; otherwise issues exactly InitCalls and returns true iff socket and all five steps succeed; on true the field holds the new descriptor and only that descriptor was opened; on false the field is back to -1 and the open set is as before |
| `Server.SyncServer.Respond` | source/SyncServer.h:100-101 | the client is handed the whole response_ and then closed, which removes it from the open set |
| `Server.SyncServer.Start` | source/SyncServer.h:76-105 | on a server without a descriptor: false and no call; otherwise returns Outcome of the loop checks and issues exactly ServeCalls; the open set is the same on return, so no client descriptor is left open |
| `Server.OutcomeAtFirstExit` | source/SyncServer.h:81-104 | the loop's result is decided by the first check that does not continue: true for a set stop flag or EINTR, false for any other accept error |
| `Server.OutcomeWhileContinuing` | source/SyncServer.h:81-102 | while every check is a connection, EAGAIN or EWOULDBLOCK, start does not return |
| `Server.SendFollowsAcceptAndPrecedesClose` | source/SyncServer.h:86-101 | every send start issues hands exactly response_ to the client the accept just before it returned, and the very next call closes that client |
| `Server.AcceptedClientIsServed` | source/SyncServer.h:86-101 | conversely, every accept of start that returns a client is followed at once by a send of exactly response_ to that client and then by its close |
| `Server.ServeNoLeak` | source/SyncServer.h:86-101 | the calls start issues leave the open set as they found it: each client is closed in the iteration that accepted it |
| `Server.SyncServer.Dispose` | source/SyncServer.h:14-21 | closes the listening descriptor, removing it from the open set, only when it is not -1; otherwise issues no call and leaves the open set as it was; the field ends at -1 |
| `Server.LifetimeNoLeak` | source/SyncServer.h:14-105 | a successful init, a run of start and the destructor's close together leave the open set as it was before init |

## Left out

- HttpResponse.Response: each `char` of a Dafny `string` stands for one byte of the `std::string`, so `Content-Length` is `|content|`. Multi-byte encodings are not modelled.
- Signal handling is not modelled (`std::signal` registration, `handleSignal`, the atomic `stopFlag`). It is asynchronous delivery. The value of `stopFlag` at each loop check is an input instead.
- The socket address and option values (`sockaddr_in`, `htons`, `INADDR_ANY`, what `SO_REUSEADDR`, `SO_REUSEPORT` and `SO_RCVTIMEO` do) are not modelled. Each call is only a logged step that succeeds or fails. The port and the option values are recorded in the log.
- Kernel.Os.Send: the return value of `send` is ignored by the source. The model records only the bytes handed to `send`, not that they reach the client.
- Server.SyncServer.Start: the C++ loop may run forever. The model follows a finite list of loop checks and returns `StillRunning` when the list ends with the loop still going.
- Kernel.Os: only a failing `accept` sets `errno`. The other calls leave it unchanged, because nothing in the server reads `errno` after them.
- Kernel.Os: each method changes `open` as `Apply` does for the call it logs. This is stated per method, not as an invariant `open == Effect(initial, log)` on the class.
- Descriptor numbers: the kernel's choice of descriptor (the lowest free one on POSIX) is an input.
- Server.SyncServer.Init: the `goto error` path is written as the `Configure` helper returning false, after which `Init` closes the descriptor and resets the field.
- `source/webserver.cpp` is not part of this model. Its `main` only fixes the port and the page and calls `init`, `load` and `start`.
