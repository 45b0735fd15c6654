# Verified model of the Scout driver

This project models, in Dafny, the parts of the Moorebot Scout driver whose value lies in timing,
ownership and framing, and proves what they guarantee together.

* **The integration bridge** (`Motion`, `Control`, `Bridge`, `BridgeTheorems`, `BridgeService`, `Camera`,
  `CameraService`, `Framing`).
  A control listener, its control worker, the camera acceptor and workers, a frame publisher and the
  publishing loop run concurrently. Each mutex critical section is one step; reading the clock,
  reading the running flag, spawning, finishing and joining are steps of their own, so every race
  between them is there. A ghost history records accepted velocities, stops, looks at the motion
  state and twists sent. The theorems quantify over every legal interleaving from start-up: the
  `Theorems` say what never goes wrong, the `Service` modules that commands are sent, lines take
  effect, clients are served, and no thread gives up without one of the source's reasons.
* **Keyboard driving** (`Teleop`, `TeleopSession`) **and timed driving** (`TimedMotion`). The
  control clears expired keys only when it is polled; it is proved to refine a specification that
  never clears anything lazily, and the publishing loop is proved honest and on time against it. What
  each letter means, and in which direction it drives, is stated apart from both.
* **Wi-Fi setup** (`WifiNetwork`, `WifiHeader`, `WifiHttp`, `Wifi`, `WifiLookup`, `WifiEndpoint`,
  `WifiSetup`). Lookup, handshake, one request and one verdict run against a peer that may send
  anything in any pieces at any time, under one deadline. Trouble means that the deadline was found
  to have passed, that an operation failed, or that one made no progress although it could have. The
  connection header is the ROS Connection Header format; the lookup reply is an HTTP/1.0 response
  (section 6 of RFC 1945, with the Content-Length of section 10.4).
* **Codecs and clients** (`Wire`, `Utf8`, `Messages`, `Sensors`, `CameraClient`, `ControlClient`). Decoders
  accept exactly the encodings of valid values and find every field at its place, and the two ends of
  each connection are composed.

Velocities, speeds and scales are reals, with one extra value for everything not finite; floats on
the wire are bit patterns. Time is a natural number of nanoseconds in the bridge, timed driving and
Wi-Fi setup, and a real number of seconds in keyboard driving. What the environment does (faults,
short reads, scheduling, elapsed time) is arbitrary.

Some results deserve a word, because the obvious statement is false. Each comes with its exact
condition and a run or input that shows it:

* The stop that `shutdown` makes itself is not enough. Once it is made, motion can still come about
  exactly if it has been armed again already, or the control worker, past its check of the flag, is
  reading or has lines left to handle and timeouts of a millisecond are permitted
  (`OwnStopSufficesExactly`; `ShutdownsOwnStopIsNotEnough` is a run). What makes shutdown safe is
  joining the worker, whose own last act is a stop (`ShutdownLeavesNothingMoving`).
* A camera worker waits although there is a frame it has not sent exactly when it has missed a
  multiple of 2^64 publications (`WaitsInVain`; `CanWaitInVain` is a run).
* Deadlines of held keys are not monotone: a press or repeat brings one forward exactly when there
  are no key-up events and more than 0.35 s were left (`RefreshShortensExactly`), that is, less than
  0.75 s after an initial press still in force (`RefreshShortensAfterPress`; `RepeatCanShorten` is a
  run).
* Of the two complaints about a long control line, which one is sent depends on how the stream is cut
  into reads: the first exactly if the read that brings the line over the limit brings no newline
  (`ServeControlClient`; `ComplaintDependsOnReads` is an input). Everything else is independent of
  the reads, and the framer's final length check never fires.

`dafny verify dfyconfig.toml` checks everything.

## Model

| member | source | states |
|---|---|---|
| `Motion.ToScoutTwistIsNearest` | src/motion.rs:97-115 | the mapping succeeds exactly on finite velocities, and the motion asked of the robot, which is `linear.y` ahead, `linear.x` to the right and `angular.z`, is on every axis the point within the limits nearest to the request |
| `Motion.ToScoutTwistKeepsSafeVelocity` | src/motion.rs:97-115 | a velocity within 0.47 and 0.2 m/s and 2.9 rad/s reaches the robot unchanged, ahead as `linear.y` and to the left as negative `linear.x` |
| `Control.MotionCell.Stop` | src/integration_bridge.rs:53-56 | the command is zero and there is no deadline |
| `Control.MotionCell.Current` | src/integration_bridge.rs:43-51 | the command is returned and kept while its deadline lies ahead; otherwise zero is returned and the state erased |
| `Control.MotionCell.HandleRequest` | src/integration_bridge.rs:320-371 | the whole new motion state and the answer, for every request, refusals included |
| `Control.AnswersExactly` | src/integration_bridge.rs:320-371 | `pong` answers a ping and nothing else; a velocity is refused for its timeout exactly if that is zero or over the maximum, then for the first of its axes that is not finite, and otherwise applied |
| `Control.AnswerNamesArmedMotion` | src/integration_bridge.rs:331-356 | a request is answered as applied exactly when it arms motion; the answer names the motion then in force, which is the clamped velocity asked for, from now for the timeout given and no longer than the maximum |
| `Control.RefusalsKeepMotion` | src/integration_bridge.rs:332-341 | every answer but an application or a stop leaves command and deadline as they were |
| `Bridge.StepKeepsInv` | src/integration_bridge.rs:196-238 | each step of each thread keeps ownership, expiry, clock and shutdown invariants |
| `Bridge.RunKeepsInv` | src/integration_bridge.rs:196-318 | every interleaving keeps them |
| `BridgeTheorems.OneOwner` | src/integration_bridge.rs:202-231 | in every interleaving at most one control worker is unfinished, and motion has a deadline only if the owner armed it and has not yet run its final stop |
| `BridgeTheorems.RejectionKeepsMotion` | src/integration_bridge.rs:206-212 | while a worker is unfinished nothing the listener does, a busy rejection included, changes command, deadline, workers or history |
| `BridgeTheorems.HandOverIsClean` | src/integration_bridge.rs:214-228 | a departing worker's final stop erases no command but its own, and a successor starts from idle motion with every other worker finished |
| `BridgeService.BusyExactly` | src/integration_bridge.rs:206-212 | a newcomer is turned away exactly if some worker is unfinished |
| `BridgeService.NewcomerIsServed` | src/integration_bridge.rs:206-231 | with every earlier worker finished, a client that comes is given a worker of its own after a stop |
| `BridgeService.NewcomerIsRejected` | src/integration_bridge.rs:206-212 | with a worker unfinished, a client that comes is turned away and nothing has changed |
| `BridgeService.ListeningEndsForAReason` | src/integration_bridge.rs:202-238 | the listener stops listening exactly when it sees the running flag down |
| `BridgeService.WorkerLeavesForAReason` | src/integration_bridge.rs:278-318 | a worker leaves its client exactly if it sees the running flag down, the connection fails or a reply cannot be written |
| `BridgeService.LineTakesEffect` | src/integration_bridge.rs:320-371 | an accepted velocity is commanded from now until its timeout and zero from then on, a stop commands zero, and any other line changes nothing |
| `BridgeService.LinesTakeEffect` | src/integration_bridge.rs:300-311 | every line of a read takes effect, in order, and the worker is then ready for more |
| `BridgeService.TwoClientsAreServed` | src/integration_bridge.rs:196-238 | a run in which one client's command drives the robot, the client leaves, and a second client is served and drives it in turn |
| `BridgeTheorems.EverySendIsFresh` | src/main.rs:1211-1220 | every twist ever published is zero or the clamped mapping of the last velocity accepted and not stopped, looked up strictly before its permitted timeout ran out |
| `BridgeService.EverySendIsExact` | src/main.rs:1211-1220 | over every run, a twist sent after a look is exactly the one that look found, which the history commanded at that instant; a send with no look since the one before is a bare zero |
| `BridgeService.SendsWhatWasFound` | src/main.rs:1211-1220 | in the loop, what is sent next is what the latest look found |
| `BridgeService.LoopPublishes` | src/main.rs:1211-1220 | from every state of the running loop, one turn sends what the history commands at that instant |
| `BridgeService.WaitThenPublish` | src/main.rs:1211-1220 | however long nothing else happens, the next turn sends what the history commands by then, and zero once the last command has run out |
| `BridgeService.LoopEndsForAReason` | src/main.rs:1211-1220 | the publishing thread leaves its loop exactly if it sees the running flag down or something fails |
| `BridgeTheorems.LazyExpiryIsInvisible` | src/integration_bridge.rs:43-51 | erasing expired commands on sight answers every look exactly as a history in which nothing is ever erased |
| `BridgeTheorems.StaleLookKeepsNewerCommand` | src/integration_bridge.rs:164-169 | a look with a stale clock reading never erases a command accepted after that reading; what it does erase had expired by then |
| `BridgeTheorems.MotionIsSuperseded` | src/main.rs:1211-1220 | a nonzero twist in force was accepted less than its timeout plus one period ago, plus whatever slack the thread takes over a turn: twice the delay from reading the clock to pausing, and the overrun of the pause |
| `BridgeTheorems.ShutdownLeavesNothingMoving` | src/integration_bridge.rs:171-180 | when shutdown has returned both listeners and every control worker are gone, motion is zero with no deadline, and the last twist attempted is zero |
| `BridgeTheorems.OwnStopSufficesExactly` | src/integration_bridge.rs:171-180 | after the stop that shutdown makes itself, some continuation moves the robot exactly if motion was armed since or the worker is still reading or handling lines and some timeout is permitted |
| `BridgeTheorems.ShutdownsOwnStopIsNotEnough` | src/integration_bridge.rs:171-176 | a run in which a worker arms motion after that stop |
| `BridgeTheorems.StepLowersRank` | src/integration_bridge.rs:171-238 | once the running flag is down every step of every thread lowers one measure |
| `BridgeTheorems.SomeStepEnabled` | src/integration_bridge.rs:235-237 | until the publishing thread has ended some thread can take a step |
| `BridgeTheorems.ShutdownTerminates` | src/integration_bridge.rs:171-180 | after the flag goes down the threads take at most 1053 steps in any interleaving, whatever time passes and whatever signals come, and none deadlocks before shutdown returns |
| `BridgeService.SignalShutsDown` | src/integration_bridge.rs:171-180 | a signal at any time of any run is followed by at most 1053 steps of the threads, and none deadlocks before shutdown returns |
| `BridgeService.StopsAreMade` | src/integration_bridge.rs:171-228 | a leaving worker, the listener before a hand-over and shutdown itself each leave motion idle and record a stop |
| `Camera.LatestFrame.Publish` | src/integration_bridge.rs:73-80 | generation and frame again stand for the publication history, one frame longer |
| `Camera.InvFromStart` | src/integration_bridge.rs:387-480 | slot accounting, lock ownership and every client's delivery record hold in every interleaving |
| `Camera.FramesInOrder` | src/integration_bridge.rs:421-478 | each connection is sent published frames at strictly increasing positions, and each request byte read has exactly one reply, but for one being served or lost with the connection |
| `Camera.CopyTakesNewest` | src/integration_bridge.rs:458-471 | a copy finds a frame, takes the newest at that moment, and it is newer than all sent before on the connection |
| `CameraService.RequestIsAnswered` | src/integration_bridge.rs:421-478 | while the bridge runs and nothing fails, a request for a frame not sent yet is answered with the newest, and the worker is ready for the next |
| `CameraService.OneRequestOneReply` | src/integration_bridge.rs:421-478 | a run of one client, one frame, one request and one reply |
| `CameraService.WorkerLeavesForAReason` | src/integration_bridge.rs:421-478 | a worker gives up its client exactly if it sees the running flag down or the connection fails |
| `Camera.WaitsInVain` | src/integration_bridge.rs:458-463 | a worker waits although there is an unsent frame exactly when the publications missed are a multiple of 2^64 |
| `Camera.CanWaitInVain` | src/integration_bridge.rs:458-463 | a run of 2^64 publications after which a worker waits although it has sent none of them |
| `Camera.SlotsAreCounted` | src/integration_bridge.rs:388-412 | at most four workers are unreleased, the counter is their number plus the acceptor's own increment, and a client is refused only when four are |
| `CameraService.ClientIsAdmitted` | src/integration_bridge.rs:388-412 | while there is room a client that comes is given a worker of its own |
| `CameraService.ClientIsRefused` | src/integration_bridge.rs:388-396 | otherwise it is refused and nothing has changed |
| `CameraService.AcceptingEndsForAReason` | src/integration_bridge.rs:388-420 | the acceptor stops accepting exactly when it sees the running flag down |
| `Framing.SplitLosesNothing` | src/integration_bridge.rs:300-306 | the lines cut from a stream and the remainder are the stream |
| `Framing.SplitYieldsLines` | src/integration_bridge.rs:300-306 | every piece cut is a line within 4096 bytes, and the remainder is an unfinished line or one over the limit |
| `Framing.SplitInvertsConcat` | src/integration_bridge.rs:300-306 | lines laid end to end are found again, whatever follows them |
| `Framing.SplitContinues` | src/integration_bridge.rs:291-311 | cutting a stream in two and reading the parts in turn gives the lines of the whole |
| `Framing.Drain` | src/integration_bridge.rs:300-311 | the drain loop answers the lines of its input in order, stops at one over the limit, and leaves no newline and at most 4096 bytes |
| `Framing.HandleChunk` | src/integration_bridge.rs:291-315 | one read: messages written are those owed for what was kept and what came, a long line draws the complaint about a missing newline exactly if the read brings none, and the check after the drain loop never fires |
| `Framing.ServeControlClient` | src/integration_bridge.rs:253-318 | for every chunking the messages written are the greeting and the replies owed for the whole stream; the connection ends over a long line exactly when the stream has one, with the first complaint exactly if the read that brings it over the limit brings no newline, and otherwise for the reason the first turn that brings no bytes gives; the buffer never exceeds 5120 bytes |
| `Framing.RepliesAreIndependentOfReads` | src/integration_bridge.rs:253-318 | two ways of reading one stream owe as many messages, and the same ones but for the closing complaint |
| `Framing.ComplaintDependsOnReads` | src/integration_bridge.rs:292-305 | one stream, two ways of reading it, and the two complaints they draw |
| `Teleop.TeleopControl.HandleKey` | src/main.rs:625-692 | the action asked for, which is to exit exactly on Ctrl-C or Escape, to take a picture on Space and to change the scale on Up and Down, and the whole new set of holds, for every key event |
| `Teleop.TeleopControl.Refresh` | src/main.rs:694-718 | the hold a press or repeat gives in both terminal modes |
| `Teleop.TeleopControl.Velocity` | src/main.rs:720-748 | the velocity of the keys active at an instant, and the holds left after clearing the rest |
| `Teleop.TeleopControl.Clear` | src/main.rs:750-752 | nothing is held and the terminal mode is kept |
| `Teleop.KeysByLetter` | src/main.rs:643-687 | a key is held by a press or repeat of one of its two letters, and let go by a release of one, exactly |
| `Teleop.LettersSteer` | src/main.rs:643-740 | with nothing else held, w, s, a, d, q and e in either case drive ahead, back, left, right, and turn left and right, at the speed of that axis, and a release takes that away |
| `Teleop.RepeatMeansStillHeld` | src/main.rs:708-712 | over every run, a press counts as a repeat exactly when the terminal says so or its key is still in force |
| `Teleop.LazyRefinesSpec` | src/main.rs:625-752 | for every run of inputs in order of time each hold agrees with a specification in which polls do nothing, so a pressed key always has a deadline |
| `Teleop.PollsAreInvisible` | src/main.rs:720-748 | runs that differ only in polls agree on every later velocity and every later press or repeat decision |
| `Teleop.SpecAfterLastRefresh` | src/main.rs:694-718 | the specified deadline after a key's last press or repeat, however many other inputs follow |
| `Teleop.HoldEndsOnTime` | src/main.rs:694-748 | after its last press or repeat a key contributes exactly until released, cleared, or 3 s, 1.1 s or 0.35 s have passed, according to mode and kind |
| `Teleop.RefreshShortensExactly` | src/main.rs:694-718 | in every run, a press or repeat brings the deadline of its key forward exactly when there are no key-up events and more than 0.35 s were left |
| `Teleop.RefreshShortensAfterPress` | src/main.rs:694-718 | that is exactly when the last press of the key was an initial one, not since ended, less than 0.75 s ago |
| `Teleop.RepeatCanShorten` | src/main.rs:705-717 | a run in which it happens |
| `TeleopSession.MaximumScaleBounds` | src/main.rs:755-765 | the maximum scale is at least full speed and no axis or rate permits less |
| `TeleopSession.SafeScaleRespectsLimits` | src/main.rs:755-774 | every permitted scale keeps each axis within its limit and the rate between 0.25 and 100 Hz |
| `TeleopSession.SafeScaleExactly` | src/main.rs:755-774 | the permitted scales are exactly those from 0.25 on that keep every axis and the rate within their limits |
| `TeleopSession.ArrowsMoveScale` | src/main.rs:767-774 | a session starts at full speed; Up raises the scale by 0.25 as far as the maximum, Down lowers it by 0.25 as far as 0.25, and nothing else changes it |
| `TeleopSession.ScaleAfter` | src/main.rs:767-774 | every history of keys leaves the scale between 0.25 and the maximum |
| `TeleopSession.PeriodBounds` | src/main.rs:879-879 | the publish period lies between 10 ms and 4 s for every permitted scale |
| `TeleopSession.PeriodOfRate` | src/main.rs:879-879 | a period times the scaled rate is one |
| `TeleopSession.MustEndExactly` | src/main.rs:884-916 | a turn has to end the session exactly if the keyboard fails, on Escape or Ctrl-C, or if the work of a picture or of a change of scale fails |
| `TeleopSession.AskedIsSafe` | src/main.rs:919-928 | whatever the keys ask for is within the limits, so the clamp changes no command |
| `TeleopSession.Session.constructor` | src/main.rs:871-876 | the session starts valid, with one zero twist published |
| `TeleopSession.Session.Handle` | src/main.rs:884-916 | a key is passed on, a picture stops and clears the robot first, Up and Down rescale, the session ends exactly on an exit key or when that work fails, and the history stays honest and on time |
| `TeleopSession.Session.PublishIfDue` | src/main.rs:918-931 | velocity is published exactly when due, unclamped and as the specification asks, and never early; a failure to publish ends the session |
| `TeleopSession.Session.TakeTurn` | src/main.rs:877-932 | one turn of the loop keeps the session valid, handles the key it met and ends only on an exit key or a failure |
| `TeleopSession.Session.Run` | src/main.rs:877-935 | whatever ends the session, a key, a failure or the flag, the keys handled are those met until then, everything published is a stop or exactly what the keys ask, each is replaced within one period and no sooner unless Up or Down is pressed, and the last is zero |
| `TeleopSession.SessionHoldsItsRate` | src/main.rs:918-931 | between two twists of a session that are not stops, with no Up or Down between them, lies exactly one period of the scaled rate |
| `TeleopSession.KeysLeaveInTime` | src/main.rs:694-931 | while a twist to which a key contributes is in force, the key's last press or repeat is less than its hold time plus one period old |
| `TeleopSession.SessionKeysLeaveInTime` | src/main.rs:694-931 | the same of everything published in any sound session |
| `TimedMotion.NextMotionWait` | src/main.rs:485-490 | there is a pause exactly before the deadline; it never passes the period or the deadline, and is shorter than a period only to meet the deadline |
| `TimedMotion.SendVelocity` | src/main.rs:564-588 | the last attempt is zero on every path and the others are the command, from the start until the time is up, a send fails or the user interrupts; they number at most the duration over the period, rounded up, unless pauses are cut short; unless pauses overrun, sends are at most a period apart and the stop is in time |
| `WifiNetwork.Clock.Remaining` | src/ros1/wifi.rs:170-175 | what is left is positive, or the operation is refused as timed out, which is trouble |
| `WifiNetwork.Connection.Read` | src/ros1/wifi.rs:189-196 | a read is checked against the deadline, is given what is left, and yields the next bytes of the peer, possibly few; there is trouble exactly if it fails or brings nothing although there is something |
| `WifiNetwork.Connection.ReadExact` | src/ros1/wifi.rs:302-302 | exactly the next bytes, over any short reads, or a failure of the connection |
| `WifiNetwork.Connection.WriteAll` | src/ros1/wifi.rs:198-204 | what went out is a start of the bytes, and all of them exactly on success |
| `WifiNetwork.Connection.WriteFrame` | src/ros1/wifi.rs:353-356 | what went out is a start of the length and body, and all of it exactly on success |
| `WifiNetwork.Connection.ReadFrame` | src/ros1/wifi.rs:341-351 | the result is that of the pure frame parser on the bytes read, no byte beyond the frame is read, and the limit is checked before the body |
| `WifiHeader.ParseHeader` | src/ros1/wifi.rs:371-386 | the loop computes the map of the pure parser, ending because each field takes at least four bytes |
| `WifiHeader.ParseInvertsPrint` | src/ros1/wifi.rs:371-386 | any at most 128 fields with distinct names free of an equals sign, printed, parse back to the same map |
| `WifiHeader.ParsedWasPrinted` | src/ros1/wifi.rs:371-386 | every accepted body is exactly the frames of such fields |
| `WifiHttp.HeaderEndFindsHeader` | src/ros1/wifi.rs:296-304 | the header found is the shortest start that ends in an empty line, within 16 KiB, and none is missed |
| `WifiHttp.ScanAcceptsOneLength` | src/ros1/wifi.rs:312-331 | the scan accepts exactly headers of well-formed fields without Transfer-Encoding and with at most one Content-Length, a number |
| `WifiHttp.FieldsThatMatter` | src/ros1/wifi.rs:312-331 | in whatever case, Transfer-Encoding is refused, the first Content-Length sets the length, a second one is refused, and other fields are passed over |
| `WifiHttp.StatusIsOk` | src/ros1/wifi.rs:307-311 | a status line is accepted exactly when its version is 1.0 or 1.1 and its code 200 |
| `WifiHttp.BodyLengthIsTheOneAnnounced` | src/ros1/wifi.rs:305-335 | a header is accepted exactly when its status is 200 and it announces one length of at most 64 KiB |
| `WifiHttp.ReplyIsHeaderAndBody` | src/ros1/wifi.rs:295-339 | a stream is accepted exactly when it is the shortest header, then as many bytes as announced, then the rest |
| `WifiHttp.ReadHeader` | src/ros1/wifi.rs:296-304 | reading byte by byte finds that header, for every pattern of reads |
| `WifiHttp.ScanHeader` | src/ros1/wifi.rs:305-335 | the loop over lines computes the announced length or the first error |
| `WifiHttp.ReadHttpBody` | src/ros1/wifi.rs:295-339 | the bytes consumed on success are exactly the header and the body; other results are failures of the connection or the verdict of the pure parser |
| `Wifi.NewCredentials` | src/wifi.rs:19-47 | credentials are made exactly from an SSID of 1 to 32 and a passphrase of 8 to 63 printable ASCII bytes without quotes or backslashes, and each refusal names the first thing wrong |
| `Wifi.RequestIsCanonical` | src/wifi.rs:49-58 | valid credentials make a request of 18 to 104 bytes that says exactly which credentials they are |
| `Wifi.RequestLayout` | src/wifi.rs:49-58 | a request is the mode 1, then the SSID behind its length, then the passphrase behind its own |
| `Wifi.Handshake` | src/ros1/wifi.rs:358-404 | success means the whole greeting went out and the bytes read are a header with the right schema; failures are the connection's or the header's |
| `Wifi.HelloIsUnderstood` | src/ros1/wifi.rs:358-369 | a service that parses the greeting of any permitted caller gets exactly the five fields |
| `Wifi.HelloSaysWhatIsWanted` | src/ros1/wifi.rs:358-369 | what a service reads in the greeting is the caller, the service, its schema and type, that it will not persist, and nothing else |
| `Wifi.SchemaIsChecked` | src/ros1/wifi.rs:387-403 | fields pass exactly if they hold no error, the md5sum of the service, and its type or none; an error and a wrong md5sum each have their own refusal |
| `Wifi.HandshakeMeansSchema` | src/ros1/wifi.rs:370-404 | a handshake is accepted exactly when the stream starts with a header of such fields |
| `Wifi.GoodServiceIsAccepted` | src/ros1/wifi.rs:370-403 | any header of printable fields with the right schema is accepted, and what follows it is left to be the answer |
| `Wifi.VerdictIsExact` | src/ros1/wifi.rs:415-430 | accepted means exactly the bytes 01 01 00 00 00 00; a rejection carries the nonzero status that came; a failure came with its whole bounded text |
| `Wifi.SendCredentials` | src/ros1/wifi.rs:406-431 | the request goes out at most once; the result is the verdict of the bytes read, or uncertain unless all of it went out |
| `WifiSetup.PreferenceKeepsAddresses` | src/ros1/wifi.rs:155-159 | preferring IPv4 loses and invents no address |
| `WifiSetup.PreferenceIsStable` | src/ros1/wifi.rs:155-159 | IPv4 addresses come first, and those of one version keep their order |
| `WifiSetup.FirstPeerIsFirst` | src/ros1/wifi.rs:211-221 | the peer is the first address that answers, and there is one if any answers |
| `WifiSetup.Resolve` | src/ros1/wifi.rs:136-168 | the addresses the resolver gives for the endpoint, IPv4 first, or a failure, in any case by the deadline |
| `WifiSetup.Connect` | src/ros1/wifi.rs:211-221 | at most eight attempts of at most two seconds each, all checked against the deadline; without trouble the connection is to the first address where something listens |
| `WifiLookup.LengthIsRead` | src/ros1/wifi.rs:324-330 | a number in decimal is read back as itself, whatever blanks surround it |
| `WifiLookup.NumbersAreDigits` | src/ros1/wifi.rs:324-330 | only digits are a number |
| `WifiLookup.LookupAsksForService` | src/ros1/wifi.rs:231-233 | the call is `lookupService`, and its parameters are the caller and then the service |
| `WifiLookup.RequestAnnouncesItsBody` | src/ros1/wifi.rs:230-240 | the lookup request of any path, host and caller is a POST of that path with the host, the type of its body, one Content-Length, exactly the length of its own body, and a request to close |
| `WifiEndpoint.ParsedEndpoint` | src/ros1/wifi.rs:91-134 | a parsed URI is its scheme, authority and path, nothing lost but a missing path; the authority is a host and a port from 1 to 65535, there is no user name, query, fragment or control character, and it is at most 2048 bytes long |
| `WifiEndpoint.ParseInvertsUri` | src/ros1/wifi.rs:91-134 | any host, bracketed or not, any port and any path that may be there are found again in their URI |
| `WifiSetup.EveryRequestAnnouncesItsBody` | src/ros1/wifi.rs:223-243 | for every master URI and node name that are accepted, the lookup request announces exactly the length of its own body |
| `WifiSetup.LookupService` | src/ros1/wifi.rs:223-282 | success means the whole request went out and the bytes read are a header and a body that names the service; every failure is one of the connection, the reply or an unavailable service; without trouble, whatever time passes, the result is the expected lookup |
| `WifiSetup.FindService` | src/ros1/wifi.rs:50-60 | the connection handed on is fresh, to a peer that was looked up, for a caller name that is permitted |
| `WifiSetup.ProvisionWifi` | src/ros1/wifi.rs:40-63 | every operation is checked against the one deadline before it starts and ends by it, but for the delay between; the request is sent at most once and only after a handshake whose header has the right schema; the result is then the verdict; unless the deadline passes, an operation fails or makes no progress, the result is the expected one, for every pattern of short reads and every passage of time |
| `WifiSetup.OnlyFourOutcomes` | src/ros1/wifi.rs:406-431 | after a handshake only accepted, uncertain, rejected with a nonzero status or failed is possible, and accepted exactly when all went out and the acknowledgement came |
| `WifiSetup.SetupSucceeds` | src/ros1/wifi.rs:40-63 | the result expected of a service with the right schema that acknowledges is acceptance |
| `WifiSetup.RobotIsSetUp` | src/ros1/wifi.rs:40-63 | a master at a numeric address that names the service by the robot's own name and a port leads to that port at the master's address; if what answers there shows the right schema and acknowledges, the setup is accepted |
| `Wire.LeValueOfBytes` | src/codec.rs:21-39 | decoding inverts little-endian encoding for every width |
| `Wire.LeBytesOfValue` | src/codec.rs:21-39 | encoding inverts decoding: each byte string of a width is the encoding of one number |
| `Wire.LeValueAppend` | src/codec.rs:21-39 | bytes that come later weigh more, each 256 times the one before |
| `Wire.BeValueAppend` | src/integration_bridge.rs:472-475 | in a camera reply's length the bytes that come earlier do |
| `Wire.UnsignedInvertsSigned` | src/codec.rs:17-29 | a signed number is the unsigned one or that less the power of its width, whichever is in range, and determines it |
| `Wire.NumberAt` | src/codec.rs:13-39 | each number of known width is found behind those before it |
| `Utf8.EncodedIsValid` | src/codec.rs:41-47 | the text of any characters is valid UTF-8 (section 3 of RFC 3629) |
| `Utf8.ValidWasEncoded` | src/codec.rs:41-47 | every valid string is the text of some characters |
| `Wire.Decoder.Take` | src/codec.rs:81-92 | exactly the next bytes and a cursor moved past them, or an error with the cursor unmoved |
| `Wire.Decoder.ReadNumber` | src/codec.rs:13-39 | the number whose encoding is the next bytes |
| `Wire.Decoder.ReadVecLimited` | src/codec.rs:49-60 | success exactly when the length announced is within the limit and that many bytes follow |
| `Wire.Decoder.Finish` | src/codec.rs:62-69 | success exactly at the end of the input |
| `Wire.NumbersAreCanonical` | src/codec.rs:13-39 | numbers of known widths in front of anything are told apart by their bytes |
| `Messages.DecodeFrame` | src/frame.rs:55-80 | exactly the bodies of 41 + N bytes with N within the limit are accepted, re-encoding the frame gives the body, and each field is what stands at its place, stream types 0, 1 and 2 being H.264, JPEG and AAC |
| `Messages.FrameLayout` | src/frame.rs:55-80 | every valid frame has an acceptable body in which every field is found at its place |
| `Messages.FrameIsCanonical` | src/frame.rs:55-80 | every valid frame has an acceptable body and no other frame has the same one |
| `Messages.DecodeBattery` | src/sensors.rs:142-189 | exactly the bodies of 3 to 64 counted values, the second a percentage, are accepted; codes 0, 1 and 2 of the first are charging, discharging and full, the second is the percentage, and the third tells of external power |
| `Messages.BatteryIsFound` | src/sensors.rs:142-189 | every valid status has an acceptable body that says what the status is |
| `Messages.BatteryLayout` | src/sensors.rs:142-160 | a status of n values takes 4 + 4n bytes, the first four of which are n |
| `Messages.BatteryIsCanonical` | src/sensors.rs:142-189 | no two lists of values have the same encoding |
| `Messages.ReadHeader` | src/sensors.rs:192-201 | success exactly when a header with a bounded UTF-8 frame identifier starts the message |
| `Messages.DecodeSample` | src/sensors.rs:49-110 | exactly the bodies that are a header and readings of the given widths are accepted, and re-encoding gives the body |
| `Messages.ValidSamplesAreBodies` | src/sensors.rs:76-110 | every valid sample has an acceptable body |
| `Messages.SampleIsCanonical` | src/sensors.rs:49-110 | no two samples have the same encoding |
| `Sensors.DecodeImu` | src/sensors.rs:49-62 | exactly the bodies of a header and 37 doubles are accepted, re-encoding the named fields gives the body, and each field is what stands at its place |
| `Sensors.ImuIsFound` | src/sensors.rs:49-62 | the quaternion, each vector and each covariance of a valid sample are found at their places in its body |
| `Sensors.ImuIsCanonical` | src/sensors.rs:49-62 | every valid inertial sample has an acceptable body and no other has the same one |
| `Sensors.DecodeRange` | src/sensors.rs:76-89 | exactly the bodies of a header, a byte and four floats are accepted, re-encoding the named fields gives the body, and each field is what stands at its place |
| `Sensors.RangeIsFound` | src/sensors.rs:76-89 | the type, field of view, least and greatest range and the range itself are found at their places |
| `Sensors.DecodeIlluminance` | src/sensors.rs:99-108 | exactly the bodies of a header and two doubles are accepted, re-encoding the named fields gives the body, and each field is what stands at its place |
| `Sensors.IlluminanceIsFound` | src/sensors.rs:99-108 | the illuminance and its variance are found at their places |
| `Sensors.RangeAndLightAreCanonical` | src/sensors.rs:76-108 | no two range samples and no two light samples have the same encoding |
| `Messages.AcceptedBodiesFitCaps` | src/ros1.rs:37-42 | every accepted body fits its transport cap, and the battery cap is reached |
| `CameraClient.BridgeFramesAreAccepted` | src/main.rs:1186-1192 | every frame that passes the bridge's filter passes the checks of both clients |
| `CameraClient.AcceptedIsMarked` | integrations/python/src/moorebot_scout/client.py:155-162 | both clients accept exactly up to 16 MiB between the start and the end marker of a JPEG |
| `CameraClient.Connection.ReceiveExact` | integrations/python/src/moorebot_scout/client.py:226-236 | exactly the next bytes of the connection over any short reads, or nothing |
| `CameraClient.Connection.ReadReply` | integrations/python/src/moorebot_scout/client.py:155-162 | a picture returned is one whole reply to one request byte and leaves the connection at the end of it; an undisturbed reply is returned |
| `CameraClient.CameraClient.ReadJpeg` | integrations/python/src/moorebot_scout/client.py:144-169 | a closed client refuses; after any fault the connection is gone; otherwise the picture is the next whole reply of one connection, as many replies having come as were asked for |
| `CameraClient.PicturesAreFrames` | integrations/python/src/moorebot_scout/client.py:144-169 | the pictures taken from a connection are the first frames the bridge sent on it, in order, however the bytes came |
| `ControlClient.ScoutClient.ReadControlLine` | integrations/matlab/MoorebotScout.m:200-237 | the lines returned and the bytes kept are always what was taken; a line that arrives in time within the limit is returned, and a failure says which of the two was missing |
| `ControlClient.ScoutClient.Request` | integrations/matlab/MoorebotScout.m:163-176 | an open client has one answer for each request and the greeting; every lost or malformed reply and a busy bridge close it, a plain refusal does not; a reply that arrives in time is the one returned |
| `ControlClient.ScoutClient.Greet` | integrations/matlab/MoorebotScout.m:26-60 | the client is open afterwards exactly if the greeting was acceptable |
| `ControlClient.ScoutClient.CloseSockets` | integrations/matlab/MoorebotScout.m:239-245 | the client is closed and keeps no bytes |
| `ControlClient.FirstLines` | integrations/matlab/MoorebotScout.m:200-237 | lines at the start of a stream of lines are its first lines |
| `ControlClient.WrittenInOrder` | src/integration_bridge.rs:300-311 | whatever part of the requests has arrived, the bridge writes the greeting and the replies to the first of them |
| `ControlClient.EachCallGetsItsAnswer` | integrations/matlab/MoorebotScout.m:163-237 | over a whole session and every chunking in both directions, the first answer is the greeting and each later one is the reply to the request of the same call |
| `ControlClient.EveryRequestHasItsAnswer` | integrations/matlab/MoorebotScout.m:163-237 | between calls, an open client of a bridge that serves its connection in whatever reads has exactly one answer for each request, the reply to that request, after the greeting |

## Left out

- Sockets, threads, condition variables and the resolver are arbitrary steps, byte streams and a clock; mutex poisoning, panics and failures to start the control worker's thread do not occur.
- JSON and XML syntax: a control line is a request or an unreadable line, and a lookup body yields a URI, no service or an error. Which texts are IP addresses is for given functions to say.
- `WifiSetup.LookupService`: the XML of the reply is read by an arbitrary function, which stands for the XML reader and the walk over its tree.
- `BridgeTheorems.MotionIsSuperseded`: bounds how late the publishing thread is in each turn, for locks, sends and pauses that overrun, by a given slack; the other theorems about the bridge make no assumption about time.
- `Bridge.RunKeepsInv`: a first send that fails ends the run at once, as in the source, which then never calls `shutdown`.
- `Camera.FramesInOrder`: the bytes of a reply are not modelled there; their layout is in CameraClient.
- `Framing.ServeControlClient`: the effect of a line on motion is in Control and Bridge; here a line only has its reply.
- `TeleopSession.Session.Run`: polls return on time and only saving a picture takes time; a failure of the very first send is the case of no turns.
- `Sensors.DecodeImu`: the numbers stay bit patterns, so not-a-number and the sign of zero are kept apart as the bytes keep them.
- IEEE rounding of velocities, scales and periods: arithmetic is on reals.
- `TimedMotion.SendVelocity`: sends take no time.
- `WifiNetwork.Connection.Read`: a read or write interrupted by a signal and retried counts as one operation.
- `WifiSetup.ProvisionWifi`: the program may be delayed between checking the deadline and starting an operation, which then ends later by that delay; the source has nothing against it either.
- `Wire.ReadNumbers`: a loop over widths stands for the source's readers called one after another.
- `CameraClient.CameraClient.ReadJpeg`: stands for the clients of both languages; MATLAB's extra length check is shown redundant in `BridgeFramesAreAccepted`.
- The Python client's control connection: it reads lines with its standard library's buffered reader, which is not part of this model.
- Packed light channels, video and audio parameters, the compressed-image encoder, the bounded raw message, the twist encoder and the static tables of topics, services and limits: they would add only easy members.
- Command-line parsing, the terminal, picture files, network detection on the host and password prompts.
