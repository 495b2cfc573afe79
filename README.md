# Traffic light with a message queue

This project models the sequential logic of `src/TrafficLight.cpp`, a
single traffic light that runs on its own thread. The file has two parts.

- `MessageQueue<T>` is a deque guarded by a mutex and a condition variable.
  `send` pushes a message at the front. `receive` waits until the deque is
  non-empty, then takes the message at the back. Front-in, back-out makes it
  a first-in, first-out queue.
- `TrafficLight` has a phase, red or green, that starts at red. Its cycle loop
  draws a dwell time of `rand() % 2001 + 4000` milliseconds. After each clock
  reading it checks whether the dwell has run out. When it has, the loop draws
  a new dwell, restarts its timer, flips the phase and sends the new phase to
  the queue. `waitForGreen` receives from the queue until a green arrives.
  `getCurrentPhase` reads the phase.

The model is split into two modules.

- `MessageQueues` (`MessageQueue.dfy`) holds the class `MessageQueue<T>`,
  whose field `queue: seq<T>` is the deque. Index 0 is the front.
  `Deliveries(q)` is the order in which back-to-front receives return the
  messages of `q`. Each object's ghost `Pending()` is that order, and it is
  the queue's first-in, first-out view.
- `TrafficLights` (`TrafficLight.dfy`) holds the `Phase` datatype, the toggle,
  the dwell draw and the class `TrafficLight`. The class has the fields
  `phase`, `message` (its queue), `start` and `dwell`, plus a ghost log
  `published` of every phase sent so far. Its invariant `Valid()` says three
  things. The phase is the one reached after `|published|` flips from red. The
  log is exactly `Publications(|published|)`, the alternating sequence green,
  red, green, and so on. The deque holds the newest entries of the log, with
  the newest at the front.

Clock readings and raw `rand()` results are parameters. A clock reading is an
integer number of milliseconds. A raw `rand()` result is a `nat`, because
`rand()` never returns a negative number. `BeginCycle` models the loop's
set-up before `while (true)`. `Tick` models one pass of the loop body.

Where the code and the design description disagree, the model follows the code:

- The design description calls the queue a stack (last in, first out). The
  code pushes at the front and pops at the back, so it is first in, first out.
  `Fifo` proves the FIFO order. `TwoFlipsThenWait` shows it: a wait for green
  takes the older green message and leaves the newer red one.
- The design description gives the dwell range as [4000, 6000). The code's
  `rand() % (6001 - 4000) + 4000` covers [4000, 6000] inclusive.
  `DrawDwell` and `DrawDwellReachesAll` state this.

## Model

| member | source | states |
|---|---|---|
| `MessageQueues.DeliveriesAt` | src/TrafficLight.cpp:26-27 | the i-th receive from a deque returns the element i places from the back |
| `MessageQueues.DeliveriesAfterSend` | src/TrafficLight.cpp:45 | a message pushed at the front is delivered after every message already pending, and the pending ones keep their order |
| `MessageQueues.DeliveriesOfPrefix` | src/TrafficLight.cpp:26-27 | after n back-pops, the pending order is the old order minus its first n messages |
| `MessageQueues.SendAll` | src/TrafficLight.cpp:45 | sending k messages one after another grows the deque by exactly k |
| `MessageQueues.Fifo` | src/TrafficLight.cpp:26-45 | after a series of sends, receives return the messages already pending and then the sent messages, in the order sent |
| `MessageQueues.FifoFromEmpty` | src/TrafficLight.cpp:26-45 | one consumer of an initially empty queue receives exactly the messages sent, in the order sent |
| `MessageQueues.MessageQueue.Send` | src/TrafficLight.cpp:33-48 | the deque is the old deque with the message added at the front; in the FIFO view the message is appended as the newest pending one |
| `MessageQueues.MessageQueue.Receive` | src/TrafficLight.cpp:11-31 | requires a non-empty deque (the wait's predicate); returns the old back element, the new deque is the old one without it, and in the FIFO view the result is the oldest pending message |
| `TrafficLights.Toggle` | src/TrafficLight.cpp:99-106 | the switch always yields the other phase |
| `TrafficLights.DrawDwell` | src/TrafficLight.cpp:96 | `rand() % 2001 + 4000` lies in [4000, 6000] for every non-negative `rand()` result |
| `TrafficLights.DrawDwellReachesAll` | src/TrafficLight.cpp:90 | every dwell in [4000, 6000] comes from some `rand()` result |
| `TrafficLights.PhaseAfterParity` | src/TrafficLight.cpp:54-106 | starting from red, the light is red after an even number of flips and green after an odd number |
| `TrafficLights.Publications` | src/TrafficLight.cpp:99-108 | after n flips the light has published exactly n phases |
| `TrafficLights.PublicationsConsecutive` | src/TrafficLight.cpp:99-108 | publication number i is the phase the light holds right after its i-th flip |
| `TrafficLights.PublicationsAlternate` | src/TrafficLight.cpp:54-108 | the published phases alternate: the first is green and each one differs from the one before it |
| `TrafficLights.FirstGreen` | src/TrafficLight.cpp:63 | the position of the first green: a green sits there, and every message before it is red |
| `TrafficLights.GreenWithinTwo` | src/TrafficLight.cpp:63 | in consecutive publications, a green is pending exactly when two messages are pending or the only one is green; the first green is at most one message away |
| `TrafficLights.TrafficLight.constructor` | src/TrafficLight.cpp:52-55 | a new light is red, its queue is empty, it has published nothing, and the invariant holds |
| `TrafficLights.TrafficLight.GetCurrentPhase` | src/TrafficLight.cpp:67-70 | returns the stored phase and changes nothing; under the invariant it is green exactly when an odd number of phases has been published |
| `TrafficLights.TrafficLight.PendingNewest` | src/TrafficLight.cpp:108 | the messages pending in the light's queue are the newest part of what it published, in publication order |
| `TrafficLights.TrafficLight.PendingConsecutive` | src/TrafficLight.cpp:108 | the pending messages are consecutive publications |
| `TrafficLights.TrafficLight.BeginCycle` | src/TrafficLight.cpp:89-91 | the cycle starts at the given time with a dwell drawn from the given `rand()` result; phase and log are unchanged |
| `TrafficLights.TrafficLight.Tick` | src/TrafficLight.cpp:93-110 | keeps the invariant. If elapsed time reaches the dwell, the phase flips, the new phase is pushed at the front of the deque and appended to the pending view and the log, the dwell is redrawn and the start is reset. Otherwise the light and its queue are unchanged |
| `TrafficLights.TrafficLight.WaitForGreen` | src/TrafficLight.cpp:57-65 | keeps the invariant; removes exactly the pending messages up to and including the first green, which are at most two, and leaves the rest of the deque as it was |
| `TrafficLights.TwoFlipsThenWait` | src/TrafficLight.cpp:52-108 | a new light is red; after two expired dwells it is red again; a wait for green then leaves the later red message pending |

## Left out

- Threads and `simulate` (src/TrafficLight.cpp:72-78) are concurrency. The
  thread vector lives in a base class that is not part of this model.
- The mutex, `lock_guard`/`unique_lock`, `condition_variable::wait` and
  `notify_one` are left out. Each queue operation is modelled as one atomic
  step. The blocking wait in `receive` becomes the precondition that the deque
  is non-empty. Spurious wake-ups and several competing consumers are not modelled.
- `getCurrentPhase` reads the phase without a lock, racing with the cycle
  loop. The model reads the phase sequentially.
- The console output in `send` is I/O and is left out.
- `high_resolution_clock::now()` and `sleep_for(1ms)` are left out. Clock
  readings become integer parameters in milliseconds. The loop reads the
  clock twice in one pass, once to measure the elapsed time and once to
  restart the timer, so `Tick` takes two readings, `now` and `restart`.
- `rand()` itself is left out. Its raw result is a parameter, and only the
  `% 2001 + 4000` arithmetic is modelled.
- The conversion `std::chrono::duration<int>(randNum*1000000)` is not modelled.
  The product overflows a 32-bit `int`, and `duration<int>` counts seconds,
  not milliseconds. The model keeps the dwell as drawn, in milliseconds.
- The endless `while (true)` is left out. `Tick` is one pass of its body, and
  `TwoFlipsThenWait` runs two passes.
- `TrafficLight.h` is not part of this model. The phase enumeration is the
  two-valued datatype `Phase`. The queue and the light are classes with the
  fields the `.cpp` file uses.
- `TrafficLights.TrafficLight.WaitForGreen`: requires that a green is already
  pending. This stands in for blocking until the cycle loop sends one. A wait
  that would block forever is not modelled.
