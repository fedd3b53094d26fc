# Babelfish event handoff and dispatch, in Dafny

Babelfish is a USB-to-legacy keyboard/mouse adapter. The USB host stack runs
on one core. It pushes decoded keyboard and mouse events into two bounded
queues. The main loop on the other core drains both queues and forwards each
event to the one active "host" backend (Sun, ADB or Apollo protocol). It then
ticks that backend once.

This project models that core of `src/main.c`:

- `events.dfy` (module `Events`): the event records, and `uint8`, the width of the queue counts.
- `bounded_queue.dfy` (module `BoundedQueue`): what one queue holds, as a sequence.
  A queue appends while below capacity and otherwise drops the new event ("drop newest").
  The module proves what a series of offers leaves behind.
- `event_queue.dfy` (module `EventQueue`): class `EventQueues`, the queue globals.
  It has two arrays of length `capacity` (MAX_QUEUED_EVENTS) and two `uint8` counts.
  Its methods are `enqueue_kbd_event`, `enqueue_mouse_event`, `get_queued_kbd_events` and `get_queued_mouse_events`.
  Each method is proved against the sequence model.
- `host_registry.dfy` (module `HostRegistry`): the `hosts[]` table with its terminating entry, and `g_current_host_index`.
- `dispatch.dfy` (module `Dispatch`): backend calls recorded as a trace of `HostCall`s.
  It also holds the trace of one main-loop pass and what that trace forwards.
- `mainloop.dfy` (module `Mainloop`): class `Adapter`, with startup (select the host, call its `init`) and one main-loop pass.
  `Run` is startup followed by a bounded number of passes.
  Before each pass, the USB host core hands over one batch of reports.

MAX_QUEUED_EVENTS is defined in a header that is not part of this model. It
is the constructor argument `capacity`, with `0 < capacity <= 255` because the
counts are `uint8_t`. The counts have type `uint8`, so each post-increment
carries a proof that it does not wrap. Backend operations (`init`,
`kbd_event`, `mouse_event`, `update`) are not executed. Each call is
appended to `Adapter.calls`, tagged with the backend it goes to.

When a queue is full, `enqueue_kbd_event` and `enqueue_mouse_event` drop the
new event (src/main.c:176, 186). `mainloop` forwards every drained keyboard
event straight to the backend, with no command-mode filter
(src/main.c:132-135).

## Model

| member | source | states |
|---|---|---|
| BoundedQueue.Enqueue | src/main.c:176-178 | a queue below capacity gains exactly the new event at its end and keeps its earlier entries; a full queue is returned unchanged; the capacity bound is preserved |
| BoundedQueue.EnqueueAllSnoc | src/main.c:172-190 | offering events one at a time composes: one more offer acts on the queue the earlier offers left |
| BoundedQueue.EnqueueAllKeepsEarliest | src/main.c:172-190 | after any offers, a queue within capacity holds the first `capacity` events of old contents followed by the offered ones, in order (drop newest) |
| BoundedQueue.EnqueueAllFromEmpty | src/main.c:172-190 | n offers to an empty queue leave the first min(n, capacity) events in order, never more than capacity |
| EventQueue.EventQueues.constructor | src/main.c:59-62 | both queues start empty, with arrays of length MAX_QUEUED_EVENTS |
| EventQueue.EventQueues.EnqueueKbd | src/main.c:172-180 | below capacity the event is stored at index count and count grows by one; when full nothing changes; other slots are untouched; the mouse queue and count are unchanged; 0 <= count <= capacity is kept |
| EventQueue.EventQueues.EnqueueMouse | src/main.c:182-190 | the same for the mouse queue, leaving the keyboard queue and count unchanged |
| EventQueue.EventQueues.GetQueuedKbdEvents | src/main.c:192-199 | reports the old count, copies exactly the queued events in insertion order into the caller's buffer, leaves the rest of the buffer alone, empties the keyboard queue and leaves the mouse queue unchanged |
| EventQueue.EventQueues.GetQueuedMouseEvents | src/main.c:201-208 | the same for the mouse queue, leaving the keyboard queue unchanged |
| EventQueue.OfferAll | src/main.c:172-190 | a batch of enqueue calls leaves each queue as the sequence model of those offers says |
| EventQueue.DrainAfterEnqueues | src/main.c:172-208 | from empty queues, n enqueues then a drain return the first min(n, capacity) events in order, and a second drain with no enqueue in between returns nothing |
| HostRegistry.CurrentHostIsRegistered | src/main.c:29-56 | the table holds the three backends and then the terminating entry; index 2 selects a backend (Apollo), not the terminator |
| HostRegistry.SelectableBeforeTerminator | src/main.c:29-34 | in a terminated table exactly the indices before the terminator select a backend, so startup's precondition on the index means "one of the three backends" |
| Dispatch.KbdCallsForward | src/main.c:132-135 | the keyboard loop forwards exactly the drained keys, in order, and no mouse event or update |
| Dispatch.MouseCallsForward | src/main.c:137-139 | the mouse loop forwards exactly the drained mouse events, in order, and no keyboard event or update |
| Dispatch.IterationForwardsEachOnce | src/main.c:129-141 | one pass forwards every drained keyboard event and every drained mouse event exactly once, in FIFO order, and calls update exactly once |
| Dispatch.IterationOrder | src/main.c:129-141 | a pass's calls are the keyboard events first, then the mouse events, then update, last; all go to one backend and none is init |
| Dispatch.IdleIterationOnlyUpdates | src/main.c:128-143 | with nothing queued, a pass only calls update |
| Mainloop.Adapter.constructor | src/main.c:93-96 | startup, given g_current_host_index, selects that entry of hosts[] (which must be a backend, as the unchecked indexing demands) and records one init call on it, with both queues empty |
| Mainloop.Adapter.Iterate | src/main.c:128-143 | one pass appends exactly the trace of the drained keyboard events, then mouse events, then update, to the recorded calls; both queues end empty; host is not reassigned |
| Mainloop.Adapter.ForwardKbdEvents | src/main.c:132-135 | the keyboard loop records one kbd_event call per buffered event, in buffer order |
| Mainloop.Adapter.ForwardMouseEvents | src/main.c:137-139 | the mouse loop records one mouse_event call per buffered event, in buffer order |
| Mainloop.Adapter.ServeBurst | src/main.c:121-145 | a batch of enqueue calls followed by one pass records the pass trace over what the queues held after the batch, and leaves both queues empty |
| Mainloop.Run | src/main.c:121-145 | startup followed by passes, each after a batch of enqueues, records init and then the trace of each pass over the events each queue accepted |
| Mainloop.AcceptedFromEmpty | src/main.c:172-190 | a batch offered to an empty queue leaves exactly the events that queue accepts |
| Mainloop.RunTraceStep | src/main.c:128-144 | the trace of n + 1 passes is that of n passes followed by pass n |
| Mainloop.RunForwardsAccepted | src/main.c:121-145 | over a run every accepted keyboard and mouse event is forwarded exactly once in arrival order, update runs once per pass, and no call is init or goes to another backend |
| Mainloop.HostSelectedOnce | src/main.c:93-96 | in a run the selected backend (Apollo) is initialised once, first, and receives every later call |

## Left out

- `event_queue_mutex` and the two-core split (`multicore_launch_core1`, `core1_main`): each queue method stands for one whole critical section.
- Mainloop.Run: the USB host core only hands over events between passes. It does not model an enqueue that lands between a pass's keyboard drain and its mouse drain; such an event is drained in the same pass or the next one.
- The USB host and device stacks (`tuh_init`, `tuh_task`, `tud_task`, `usb_host_setup`): these are foreign library calls and I/O. The `tud_task` tick at the end of each pass is not recorded.
- Board bring-up (`set_sys_clock_khz`, `led_init`, `stdio_*`, `channel_init`) and the `channels[]` pin table: hardware configuration with nothing to state.
- The backends behind `HOST_PROTOTYPES` / `HOST_ENTRY`: their code and the names and notes in their table entries come from a header that is not part of this model. An entry is identified by its protocol only, and its four operations are recorded calls.
- The endless `while (true)` of `mainloop`: modelled as one pass (`Iterate`) or a bounded number of passes (`Run`).
- `DBG` / `DBG_V` logging.
- The command-mode key-hold filter: `src/main.c` contains none, so no keyboard event is intercepted.
- `src/stdio_nusb/reset_interface.c`: a callback that resets into the bootloader when the CDC baud rate is 1200. It is a side effect on a library that is not part of this model.
- The layout of a mouse report: the core only copies it by value, so its fields are illustrative.
