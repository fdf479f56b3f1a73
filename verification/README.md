# GPS/PPS time server: verified model

This project models the firmware of a GPS- and PPS-disciplined NTP server and
proves properties of whole runs of it: that the served second stays right
whatever pulses are missed, how the served quality ages, what a snapshot of the
pulse counter means under interrupts, what the rate limiter can and cannot
forget, and that framing, checksums and line assembly undo each other.

Verify everything with `dafny verify dfyconfig.toml`.

## Layout

| file | contents |
|---|---|
| `Wrappers.dfy`, `Numbers.dfy`, `Bits.dfy`, `Text.dfy` | `Option`; integer widths, saturating arithmetic, float-to-integer casts; powers of two and bitwise operators; trimming and searching |
| `Discipline.dfy` | the discipline engine as a transition function `Step` over `Clock` states and input events |
| `Runs.dfy` | its invariant over every run, and the history of a run |
| `Counting.dfy`, `Labelling.dfy`, `Pairing.dfy` | counting elapsed seconds, whole-run second labelling and repair, pairing sentences with edges |
| `CapturedRuns.dfy`, `LateSentence.dfy` | the labelling, repair and jump theorems over runs fed from the pulse capture, and a run on which a second is lost |
| `ServedTime.dfy`, `Schedule.dfy` | the error of the time served between pulses; whole runs from boot under conditions on the environment alone |
| `StalledLoop.dfy`, `Advertised.dfy` | a run on which a stall is absorbed; when the advertised dispersion covers the error of the served time |
| `Servo.dfy`, `Effects.dfy`, `Holdover.dfy` | frequency estimate, steps, jumps; what pulses leave behind in plain numbers; stratum, leap and dispersion |
| `Timestamps.dfy`, `Packets.dfy`, `ReplyBuffers.dfy` | 32.32 timestamps, request dispatch and reply bytes, the byte-buffer builders |
| `ServedReply.dfy` | what the bytes of a served reply tell the client, over whole runs |
| `Server.dfy` | the `NtpServer` object, each method proved to take the transition of `Discipline.dfy` |
| `Pps.dfy`, `PpsMonitor.dfy`, `PulseFeed.dfy` | the sequence lock and poll cursor as interleaved steps, the monitor object, and the event stream the engine consumes |
| `RateLimiter.dfy`, `Crowd.dfy`, `Acl.dfy`, `Cidr.dfy` | the 32-slot limiter against an unbounded map, and a crowd that defeats it; the access list, the CIDR parser |
| `Nmea.dfy` | framing, checksum, and the chunked line loop |
| `Redraw.dfy`, `RedrawTasks.dfy` | the redraw handshake as interleaved steps, and as two task loops |

## Conventions

- Clock readings, packets, read chunks and interrupt times are parameters, so a
  theorem over all runs is a theorem over all of them.
- `i64` and `u32` operations that saturate in the source saturate here (`Sat`,
  `SatInc`); casts, shifts and wrapping `u32`/`u64` arithmetic are written out.
  Frequency and jitter are exact reals, truncated where the source casts.
- The build-time NMEA-to-PPS fudge (0 or 1) is part of the state, so each
  theorem covers both builds.
- A class method is proved equal to the specification function of the same
  operation; theorems about runs are stated over those functions.
- Tasks and interrupts interleave at single loads and stores of shared atomics,
  with sequentially consistent memory.
- `Labelling.Observation` carries, beside each pulse, the UTC second its edge
  really marks. It belongs to the environment; the engine never sees it.

## What the theorems found

- **How long the second survives a gap.** With oscillator offset ρ, updated
  estimate f (both ppm) and a gap of n seconds, the count is right when
  n·|ρ − f − ρf/10⁶| + (jitter + |nudge|)·(1 − f/10⁶) < 500 000 µs. For offsets
  within 500 ppm the first factor is at most |ρ − f| + 0.25. The scale factor on
  jitter and nudge cannot be dropped: `Counting.BudgetIsTight` gives, for every
  rate, gap and slack two microseconds beyond the budget, a reading that is
  miscounted.
- **One wrong pairing is harmless, two identical ones are not.** Under that
  budget every accepted pulse carries its true second if and only if no two
  consecutive accepted pulses see the same nonzero mispairing.
  `LateSentence.LateSentenceCostsASecond` gives a run from boot on which one
  sentence parsed 1.5 s late, with the next two missing, loses a second. The main
  theorems are over runs whose pulses are the events of the pulse capture in
  order, so that a locked clock never meets another first pulse and intervals are
  real gaps.
- **The environment can be named without the clock.** Suppose that from every
  second mark the oscillator keeps some rate within 500 ppm for 470 s, give or
  take 9 ms (over longer times it may wander); that relevant pulses are on their
  marks, a steady one at least every 470 s; and that sentences are punctual,
  except that a locked clock may meet any other, fresh or stale, if a steady pulse
  has been paired right, or with none, since the last pulse it misled. Then every second is true from boot, and the served
  time is within half a second of UTC.
- **The advertised dispersion covers the error in holdover, not always while
  Locked.** In holdover 500 µs/s outruns any residual rate that fits the first
  millisecond. While Locked the dispersion counts at most 15 µs of ageing, which
  covers the second after a pulse but not nine seconds without one
  (`Advertised.LockedDispersionFallsShort`).
- **Packet time order fails only across an era.** Packing wraps at the end of an
  NTP era, so reference ≤ receive ≤ transmit holds exactly when no era ends
  between the anchor second and the transmit instant; `Timestamps.EraEndBreaksOrder`
  is a run on which it fails.

Where the code and its own text differ, the model follows the code:

- `docs/technical.md:106` draws the frequency path as an integrator; the code
  (`src/ntp/mod.rs:571-573`) blends the error in with weight 0.01.
- `src/ntp/mod.rs:40-43` asks for sentences parsed strictly less than one second
  after their edge; the pairing is still right at exactly 1 000 000 µs.
- `src/ntp/protection.rs:47-48` speaks of a minimum interval to exceed; a client
  returning after exactly 2 s is admitted (`src/ntp/protection.rs:71-73`).

## Model

| member | source | states |
|---|---|---|
| Runs.StepKeepsInv | src/ntp/mod.rs:396-657 | every input keeps the invariant: locked exactly when a good edge is recorded; then an anchor exists, within 20 ms of that edge, and the reference timestamp is its packed second; the estimate stays in ±500 ppm, jitter in 0 to 200 ms, a pending step is never zero |
| Runs.RunKeepsInv | src/ntp/mod.rs:386-657 | the invariant survives any sequence of inputs |
| Runs.ReachableInv | src/ntp/mod.rs:305-332 | every state reached from boot, with either fudge, satisfies it |
| Runs.LastEdgeRemembered | src/ntp/mod.rs:460-471 | the stored edge is the last one in the run that locked the clock or was accepted, and no other |
| Runs.RejectedPulseKeepsTime | src/ntp/mod.rs:527-564 | a pulse that is neither accepted nor locks changes nothing but the glitch counter |
| Runs.LockIsForEver | src/ntp/mod.rs:460-471 | no input ever undoes PPS lock |
| Runs.BootstrapAnchor | src/ntp/mod.rs:396-427 | until lock the anchor is the last NMEA second, or else the first RTC seed, whatever else happened |
| Counting.CorrectedIsTruncated | src/ntp/mod.rs:477-484 | corrected time is the exact scaled elapsed time, truncated and never negative |
| Counting.ElapsedSecondsExact | src/ntp/mod.rs:590-592 | rounding corrected elapsed time gives the true number of seconds whenever n times the residual rate plus the scaled slack is under half a second |
| Counting.BudgetIsTight | src/ntp/mod.rs:590-592 | 2 µs beyond that budget, some elapsed time within the slack is miscounted, for every rate, gap and slack |
| Labelling.TimelyPulseCountsTrueSeconds | src/ntp/mod.rs:590-593 | a timely pulse adds the true number of seconds since the last good edge, whatever second the anchor carries |
| Labelling.TruePulseExactly | src/ntp/mod.rs:590-634 | from a true anchor one pulse is labelled true if and only if its pairing is right or differs from the previous mispairing |
| CapturedRuns.EveryPulseTrueExactly | src/ntp/mod.rs:501-657 | whole-run labelling: from a true anchor, over any run fed from the pulse capture whose gaps each fit the budget at some oscillator rate of their own, every accepted pulse carries its true second if and only if no two consecutive accepted pulses see the same nonzero mispairing; any pulses may be missed, coalesced or rejected |
| LateSentence.LateSentenceCostsASecond | src/ntp/mod.rs:594-624 | a captured run from boot, in time with a perfect world, on which a sentence parsed 1.5 s late, with the next two missing, costs a second: the confirmed step moves off the true second |
| CapturedRuns.TrueFromLockOn | src/ntp/mod.rs:501-549 | a clock that locks on a correctly paired edge has a true anchor and nothing pending, so labels follow the pairing from then on |
| CapturedRuns.GapsUpTo470SecondsKeepTheSecond | src/ntp/mod.rs:590-634 | the same for every captured run with gaps up to 470 s between accepted pulses, over each of which the oscillator keeps some rate within 500 ppm and jitter up to 9 ms |
| CapturedRuns.RepairedWithinTwoPulses | src/ntp/mod.rs:594-624 | from any locked state, however wrong the anchor and whatever is pending, once two consecutive accepted pulses are correctly paired the second carries the true second, and every later one does too if and only if no wrong pairing repeats |
| Schedule.PairedTrue | src/ntp/mod.rs:429-457 | when the latest sentence named its true second and was parsed inside the second the fudge stands for, less a margin of 10.5 ms, every edge on its mark is paired with its true second while the sentence is fresh and with none after; the oscillator may wander anywhere within 500 ppm over times longer than 470 s |
| Schedule.SecondsTrueFromBoot | src/ntp/mod.rs:396-657 | with conditions on the environment alone (a wandering oscillator, pulses on their marks with a steady one at least every 470 s, punctual sentences except isolated ones that may say anything at any time), from boot every pulse that locks the clock or is accepted carries its true second |
| Schedule.ServedTimeFromBoot | src/ntp/mod.rs:1337-1347 | on such a run the time served up to 470 s after the last good edge is within the drift bound of UTC, which is under half a second |
| StalledLoop.StallIsAbsorbed | src/ntp/mod.rs:579-589 | a run from boot under a wandering oscillator that meets those conditions, on which a stalled loop parses a sentence after the next edge: that pulse is accepted one second low, and still every pulse carries its true second |
| ServedTime.ServedTimeError | src/ntp/mod.rs:1337-1347 | with a true anchor, the time served n seconds after the last good edge, n whole or not, differs from UTC by at most n times the residual rate plus scaled jitter and nudge plus 1 µs |
| ServedTime.ServedTimeOnRun | src/ntp/mod.rs:1337-1347 | the same bound at the end of any captured run in time with the world and without a repeated mispairing |
| Pairing.PairedExactly | src/ntp/mod.rs:429-457 | an edge is answered only while the sentence is fresh, and gets its true second exactly when lateness minus edge offset is in (0, 1 s] with fudge 1 or (-1 s, 0] with fudge 0; one second later with fudge 1 it reads exactly one low |
| Servo.EstimateWithinHull | src/ntp/mod.rs:571-573 | over every run the estimate stays in the hull of its start, 0 and the accepted errors, and in ±500 ppm |
| Servo.EstimateConverges | src/ntp/mod.rs:571-573 | under a constant error within 500 ppm the signed distance to it after n accepted pulses is exactly 0.99^n of the initial one, rejected pulses and other inputs notwithstanding |
| Effects.EstimateOfPulse | src/ntp/mod.rs:571-573 | an accepted pulse mixes one part of its error into 99 parts of the estimate and holds the result in ±500 ppm, errors beyond that included |
| Effects.AcceptedExactly | src/ntp/mod.rs:527-564 | a locked clock accepts exactly the intervals of 0.8 to 1.2 s, and of 0.95 to 1.05 s once it has a jitter sample |
| Effects.AnchorOfPulse | src/ntp/mod.rs:626-634 | an accepted pulse anchors the clock at its edge less a tenth of its error, rounded toward zero |
| Effects.AnchorOfRun | src/ntp/mod.rs:460-634 | over every run, once locked, the anchor stands exactly where the last locking or accepted pulse put it, nudge and all |
| Servo.JitterWithinErrors | src/ntp/mod.rs:637-643 | over every run jitter stays within the largest accepted error |
| Effects.FirstSample | src/ntp/mod.rs:637-643 | the first jitter sample is the size of the error |
| Effects.JitterConverges | src/ntp/mod.rs:637-643 | under a constant error the jitter's signed distance from its size after n accepted pulses is exactly 0.8^n of the initial one |
| Servo.StepsCostTwoPulses | src/ntp/mod.rs:594-624 | twice the steps taken plus one for a pending step never grows faster than the pulses accepted |
| Effects.CountersOfRun | src/ntp/mod.rs:551-624 | over every run the glitch and step counters hold exactly the numbers of outliers rejected and of steps taken, up to 2^32 - 1 |
| Servo.PendingIsLastDisagreement | src/ntp/mod.rs:594-624 | a pending step is the disagreement of the latest accepted pulse |
| Servo.OnlyRepeatedDisagreementSteps | src/ntp/mod.rs:575-624 | a pulse moves off the counted second only when the previous accepted pulse saw the identical disagreement, and then lands on the GPS second |
| Servo.JumpExactly | src/ntp/mod.rs:590-634 | for every accepted pulse without a step, the move of the disciplined time at the edge is what rounding drops, plus the nudge read back, less any whole seconds lost to saturation |
| Servo.JumpBounded | src/ntp/mod.rs:590-634 | so it is at most half a second plus the nudge, whatever was missed before, unless the counted second overruns the largest `i64` |
| Servo.OverrunJumpsBack | src/ntp/mod.rs:590-593 | a run from boot that does overrun, and falls back a whole second |
| CapturedRuns.ConsecutiveJumpUnder71Ms | src/ntp/mod.rs:556-634 | when one accepted pulse of a captured run directly follows another, less than 2^32 µs later, re-anchoring without a step or an overrun moves the time at the edge by less than 71 ms |
| Holdover.HoldoverLaw | src/ntp/mod.rs:676-737 | in every reachable state stratum is 1 exactly while the last locking or accepted edge is under 2008 s old, with or without a fix; Locked exactly with a fix and age under 10 s; leap is the last one announced in the run (0 if none) at stratum 1; otherwise stratum 16 and leap 3 |
| Effects.AnnouncementKept | src/ntp/mod.rs:386-388 | over every run the leap to be served is the last announcement, clamped to 2, or 0 |
| Holdover.DispersionExactly | src/ntp/mod.rs:688-710 | the dispersion is the nearest microsecond of the jitter, at least 100 µs, plus 15 µs for the first second of age while the fix and the edge are fresh; else 1 ms plus 500 µs for each whole second past ten, up to 2 s |
| Holdover.ReferenceIsAnchor | src/ntp/mod.rs:676-769 | at stratum 1 the reference timestamp is the packed anchor second |
| Holdover.WithoutPulsesNeverStratumOne | src/ntp/mod.rs:712-724 | a run of RTC seeds and sentences alone is never served at stratum 1 |
| Holdover.HoldoverDispersionNondecreasing | src/ntp/mod.rs:702-710 | while no pulse is accepted and the state is not Locked, dispersion never falls and stays in 1 ms to 2 s |
| Holdover.LockedDispersionWithinErrors | src/ntp/mod.rs:688-701 | while Locked, dispersion is at most the largest accepted error of the run (or 100 µs) plus 15 µs |
| Advertised.HoldoverDispersionCovers | src/ntp/mod.rs:702-724 | in holdover, for as long as stratum 1 is served, the advertised dispersion is at least the error of the served time, whenever 11.01 s of residual drift plus jitter, nudge and a microsecond fit in the first millisecond |
| Advertised.FortyFivePpmFits | src/ntp/mod.rs:702-710 | a residual rate up to 45 ppm with jitter and nudge up to half a millisecond does fit |
| Advertised.NudgeWithinJitter | src/ntp/mod.rs:626-643 | over every run the anchor is never further from its edge than half the smoothed jitter |
| Advertised.LockedDispersionCovers | src/ntp/mod.rs:688-701 | while Locked, up to a second after the last good edge, the advertised dispersion is at least the error of the served time, whatever errors were accepted, with edges good to 20 µs and a residual rate up to 25 ppm |
| Advertised.LockedDispersionFallsShort | src/ntp/mod.rs:688-701 | a run from boot that is still Locked nine seconds after its last pulse, serves time 405 µs off, and advertises 115 µs |
| Holdover.ShortFormatFits | src/ntp/mod.rs:739-741 | in every reachable state the casts to the 16.16 field lose nothing: it under-reports by less than one unit of 2^-16 s |
| Timestamps.PackedHalves | src/ntp/mod.rs:1354-1364 | the upper half is the seconds since 1900, wrapped (1970 for anything earlier); the lower half is the microseconds in units of 2^-32 s, rounded down |
| Timestamps.PackReadsBack | src/ntp/mod.rs:1354-1364 | read in its own era a packed instant is itself, less than a microsecond early |
| Timestamps.PackOrder | src/ntp/mod.rs:1354-1364 | within an era packed timestamps are ordered exactly as (second, microsecond) pairs |
| Timestamps.PackWraps | src/ntp/mod.rs:1363-1364 | across an era end the packed value falls |
| Timestamps.ClockMonotone | src/ntp/mod.rs:1337-1347 | between re-anchorings the disciplined clock never runs backwards and never reads before its anchor second |
| Timestamps.PacketOrderExactlyWithinEra | src/ntp/mod.rs:1337-1364 | in every reachable stratum-1 state with a post-1970 anchor less than an era old, reference ≤ receive ≤ transmit if and only if no era ends in between |
| Timestamps.EraEndBreaksOrder | src/ntp/mod.rs:1354-1364 | a run from boot that serves stratum 1 in the last second of an era, with a reply whose timestamps are out of order |
| Server.NtpServer.constructor | src/ntp/mod.rs:305-332 | the object starts in the boot state of the transition system |
| Server.NtpServer.SetLeapIndicator | src/ntp/mod.rs:386-388 | takes the transition of a leap announcement, clamped to 2 |
| Server.NtpServer.SeedUtcSeconds | src/ntp/mod.rs:396-404 | takes the seed transition; an existing anchor is untouched |
| Server.NtpServer.UpdateGpsUtcSeconds | src/ntp/mod.rs:416-427 | takes the sentence transition; after lock only the record changes |
| Server.NtpServer.LockOnto | src/ntp/mod.rs:460-471 | the locked state of the specification, nothing else touched |
| Server.NtpServer.LabelEdge | src/ntp/mod.rs:590-624 | counts, cross-checks and steps: the returned second, the pending step and the step counter for each of the cases |
| Server.NtpServer.Reanchor | src/ntp/mod.rs:626-651 | the whole new state after re-anchoring with the nudge |
| Server.NtpServer.RunServo | src/ntp/mod.rs:571-651 | the field-by-field update equals the specification's, the estimate being updated before it is used |
| Server.NtpServer.ObservePpsPulse | src/ntp/mod.rs:501-657 | one pulse through all filters takes exactly the pulse transition and keeps the invariant |
| Server.NtpServer.Answer | src/ntp/mod.rs:924-966 | an admitted request gets the reply of the specification, stamped last |
| Server.NtpServer.Refuse | src/ntp/mod.rs:915-956 | a limited time request gets the kiss, a limited control request nothing, independent of the discipline state |
| Server.NtpServer.HandlePacket | src/ntp/mod.rs:866-991 | the access list, limiter table, three counters and reply for every packet; serving never changes the discipline state |
| Server.ServedPacketOrderExactly | src/ntp/mod.rs:1263-1311 | the reference, receive and transmit fields read out of a served stratum-1 packet are in order if and only if no era ends between anchor and transmit |
| ServedReply.QualityServed | src/ntp/mod.rs:1263-1311 | over every run, in the bytes of a time reply: stratum 1, GPS and the last announced leap while the last good edge is under 2008 s old; stratum 0, INIT and the alarm otherwise |
| ServedReply.DispersionServed | src/ntp/mod.rs:688-741 | the root dispersion field decodes to the dispersion due, rounded down to 2^-16 s |
| ServedReply.ReferenceServed | src/ntp/mod.rs:1297-1304 | the reference field decodes to the anchor second with no fraction at stratum 1, and to zero otherwise |
| ServedReply.SystemTimeServed | src/ntp/mod.rs:1337-1352 | before any anchor the receive and transmit fields are the system clock's, at stratum 0 with the alarm |
| ServedReply.WireTime | src/ntp/mod.rs:1337-1364 | a timestamp on the wire, read in its own era, is the disciplined time, less than a microsecond early |
| ServedReply.TimeServed | src/ntp/mod.rs:920-966 | from boot, on schedule, the receive and transmit fields decoded from a served reply are each within the drift bound plus a microsecond of UTC at the moment they were taken, and so within half a second |
| Packets.AnsweredExactly | src/ntp/mod.rs:896-979 | from the bytes alone: a mode 1 or 3 packet of at least 48 bytes is always answered, a mode 6 packet of at least 12 without the response bit unless limited, and nothing else ever |
| Packets.ClassifiedExactly | src/ntp/mod.rs:896-945 | the dispatch takes exactly those packets for time and control requests |
| Packets.RepliesAreNeverRequests | src/ntp/mod.rs:896-979 | for every request and state, every packet sent back is discarded by the same dispatch |
| Packets.ExchangesEnd | src/ntp/mod.rs:896-979 | any chain of packets each of which is a server's reply to the one before has at most one reply |
| Packets.TimeReplyReadsBack | src/ntp/mod.rs:1263-1311 | every byte of a time reply, from the request's bytes: mode 3 is answered in mode 4 and mode 1 in mode 2, versions 1 to 4 are mirrored and others become 4, stratum 16 goes out as 0, poll is copied, root delay is zero, the reference is GPS or INIT, originate echoes, and the other fields decode to what was put in |
| Packets.KissReadsBack | src/ntp/mod.rs:1222-1237 | a kiss has the same mode and version, the alarm, stratum 0, code RATE and the echoed originate stamp; every other byte is zero |
| Packets.ControlReplyMeans | src/ntp/mod.rs:1026-1190 | a control reply has mode 6, the mirrored version and the response bit, echoes opcode, sequence and association, sets the error bit exactly for a bad opcode or association, carries the status word and the payload due in each case, counts the payload, and ends in zeros up to 32 bits |
| Packets.BytesRoundTrip | src/ntp/mod.rs:1446-1460 | big-endian encoding decodes to the value for every value that fits |
| ReplyBuffers.WriteBigEndian | src/ntp/mod.rs:1446-1460 | the in-place write changes exactly its bytes, to the encoding |
| ReplyBuffers.BuildResponse | src/ntp/mod.rs:1263-1311 | the buffer filled field by field is the specified 48 bytes |
| ReplyBuffers.BuildKissOfDeath | src/ntp/mod.rs:1222-1237 | likewise for the kiss |
| ReplyBuffers.FillControlHeader | src/ntp/mod.rs:1149-1180 | the 12 header bytes written field by field are the flags, status, association, zero offset and count in their places |
| ReplyBuffers.BuildMode6Header | src/ntp/mod.rs:1149-1180 | the header built from the request and the payload is the specified one |
| ReplyBuffers.BuildMode6Response | src/ntp/mod.rs:1026-1190 | header buffer, payload and padding loop build the specified control reply |
| Pps.ReachableInv | src/pps.rs:122-184 | in every interleaving of handler stores, reader loads and retries: the counter is twice the published pulses plus one mid-update, and what the reader holds is consistent if unchanged |
| Pps.SnapshotIsConsistent | src/pps.rs:122-148 | every pair ever returned carries the timestamp of exactly the pulse it counts; retries never exceed the handler's counter stores |
| Pps.QuietReaderReturns | src/pps.rs:133-148 | with the handler quiet, the reader returns the latest pulse within five of its own steps, from wherever it was |
| Pps.StreamIsFaithful | src/pps.rs:165-184 | over every run, one First at most and in front; real edges in strictly increasing order; each interval is the true gap modulo 2^32 µs, and so the gap itself exactly when that is below 2^32 µs |
| Pps.IntervalsTelescope | src/pps.rs:165-184 | while gaps fit, intervals sum to last reported edge minus first |
| Pps.PromptPollReports | src/pps.rs:122-184 | from every reachable state at rest, a pulse polled before the next edge is reported as the next event |
| Pps.AllReported | src/pps.rs:122-184 | for any increasing edges there is a run that reports every one of them |
| PpsMonitoring.PpsPollState.constructor | src/pps.rs:33-38 | the cursor starts at count and time zero |
| PpsMonitoring.PpsMonitor.constructor | src/pps.rs:78-83 | the monitor starts with no pulse published |
| PpsMonitoring.PpsMonitor.HandlerStore | src/pps.rs:122-126 | each of the handler's three stores is the corresponding step of the protocol |
| PpsMonitoring.PpsMonitor.RecordEdge | src/pps.rs:122-126 | run to completion, the handler publishes one pulse with its timestamp |
| PpsMonitoring.PpsMonitor.Snapshot | src/pps.rs:133-148 | interrupted between any two loads, the retry loop ends and returns a pulse no older than the call with its own timestamp |
| PpsMonitoring.PpsMonitor.Poll | src/pps.rs:165-184 | the event and the new cursor are those of a consistent snapshot |
| PulseFeed.IntervalOnceLocked | src/app.rs:151-169 | once a clock fed from the pulse capture has locked, every pulse it sees carries an interval |
| PulseFeed.LockedOnce | src/app.rs:151-169 | a clock fed from the pulse capture, with other inputs anywhere between, never locks a second time |
| PulseFeed.IntervalIsTheGap | src/app.rs:151-169 | a pulse less than 2^32 µs after the one fed before it carries exactly the time between their edges |
| PulseFeed.FoundByTheNext | src/ntp/mod.rs:626-651 | the pulse after one that locked or was accepted finds that edge recorded, and after an accepted one a jitter sample |
| RateLimiting.RateLimiter.constructor | src/ntp/protection.rs:58-62 | the table starts empty |
| RateLimiting.RateLimiter.Check | src/ntp/protection.rs:68-97 | the in-place scan answers and leaves the table as the specification says |
| RateLimiting.RateLimiter.Slot | src/ntp/protection.rs:80-91 | the first empty slot, else the first of the oldest |
| RateLimiting.TableIsTrue | src/ntp/protection.rs:68-97 | on every run, one record per address, each written by a real acceptance |
| RateLimiting.DenialIsDeserved | src/ntp/protection.rs:68-97 | a denial always follows a real acceptance of that address less than 2 s earlier |
| RateLimiting.CheckRefines | src/ntp/protection.rs:68-97 | while there is room, one check on the table is one check on an unbounded map |
| RateLimiting.LimiterRefinesMap | src/ntp/protection.rs:68-97 | on any run with at most 32 addresses every answer is the unbounded map's |
| RateLimiting.EvictionIsCrowded | src/ntp/protection.rs:79-95 | a record is evicted only when 32 other addresses were accepted since it was written |
| RateLimiting.DefeatedOnlyByCrowd | src/ntp/protection.rs:68-97 | with a nondecreasing clock, an address accepted twice within 2 s had at least 32 other addresses accepted in the closed interval between |
| Crowd.CrowdOf32Defeats | src/ntp/protection.rs:68-97 | a run on which exactly 32 other addresses are accepted and one address is accepted twice within 33 µs: the bound is attained |
| AccessControl.Acl.constructor | src/ntp/protection.rs:150-166 | a new list is empty with the given default |
| AccessControl.Acl.AddIpv4Cidr | src/ntp/protection.rs:203-217 | appends the entry of the prefix, or refuses exactly when full |
| AccessControl.Acl.Allows | src/ntp/protection.rs:220-228 | the default for an empty list, else membership in some entry |
| AccessControl.AdmitsExactly | src/ntp/protection.rs:220-228 | an empty list gives its default; any other gives membership, whatever the default |
| AccessControl.ContainsExactlyPrefix | src/ntp/protection.rs:120-124 | masking matches exactly the addresses sharing the leading bits, for every prefix length 0 to 32 and unaligned networks |
| AccessControl.NetworkOctets | src/ntp/protection.rs:207-207 | the network address reads back as its four octets, the first on top |
| AccessControl.PrivateLan | src/ntp/protection.rs:186-193 | holds the four private prefixes in order |
| AccessControl.PrivateLanExactly | src/ntp/protection.rs:186-193 | admits an address exactly when it lies in 127/8, 10/8, 172.16/12 or 192.168/16 |
| AccessControl.FromConfig | src/ntp/protection.rs:172-180 | the configured prefix alone, or the private list when the text does not parse |
| Cidr.CidrRoundTrip | src/ntp/cidr_parse.rs:10-29 | every prefix printed in dotted form parses back to itself |
| Cidr.ParsedExactly | src/ntp/cidr_parse.rs:10-29 | a text parses to a prefix if and only if, without the white space at its ends, it is four bytes between dots, a slash and a length up to 32, each in decimal with leading zeros and one plus sign allowed |
| Nmea.ChecksumIsParity | src/gps.rs:52-55 | every bit of the checksum is the parity of that bit over the characters |
| Nmea.ChecksumDetectsChange | src/gps.rs:52-55 | changing any one character changes the checksum |
| Nmea.ValidExactly | src/gps.rs:246-268 | a text validates if and only if it is ASCII, starts with a dollar sign, and the two characters after its last star spell the checksum between them, in either case or as a plus sign and a digit |
| Nmea.ValidExactlyWhenChecksumMatches | src/gps.rs:246-268 | a sentence with two given digits validates if and only if they spell the body's checksum |
| Nmea.HexDigitIs | src/gps.rs:52-55 | printed digits are 0 to 9 and upper-case A to F |
| Nmea.FrameExactly | src/gps.rs:52-55 | a frame is a dollar sign, the body, a star, the checksum in two upper-case digits, carriage return and newline |
| Nmea.SentenceChecks | src/gps.rs:246-268 | every framed sentence validates, and none does with one body byte changed |
| Nmea.LineReader.constructor | src/gps.rs:109-115 | nothing is waiting at the start |
| Nmea.LineReader.Poll | src/gps.rs:155-193 | the drain loop hands out the sentences of all complete lines and keeps the rest; a chunk that is not UTF-8 changes nothing |
| Nmea.LineReader.DiscardBacklog | src/gps.rs:124-129 | nothing waits afterwards |
| Nmea.ChunkingIsInvisible | src/gps.rs:169-174 | however a stream is split into reads, the output is that of the whole stream |
| Nmea.DollarLinesComeOut | src/gps.rs:169-178 | of any lines exactly those come out that start with a dollar sign once the white space at their ends is gone, trimmed and in order, and an unfinished line waits |
| Text.TrimsToInside | src/gps.rs:172-172 | what stands between the white space at the ends is what trimming leaves |
| Text.TrimExactly | src/gps.rs:172-172 | trimming takes white space from both ends and nothing else |
| Text.SpacesAre | src/gps.rs:172-172 | white space is exactly the 25 code points of the Unicode property |
| Nmea.FramingRoundTrip | src/gps.rs:169-193 | framed bodies, concatenated and split anyhow, come out as exactly their sentences in order with nothing left |
| Nmea.EverySentenceChecks | src/gps.rs:246-268 | the k-th sentence out is the k-th body's and validates |
| Nmea.CorruptionIsCaught | src/gps.rs:169-193 | a frame with one body byte changed still comes out as one line, and fails its check |
| Nmea.DamageIsContained | src/gps.rs:169-193 | in a stream with such a frame, under any chunking, every other sentence comes out intact and in place |
| Redraw.ReachableInv | src/ui_task.rs:500-529 | in every interleaving of the two tasks: the drawn request never passes the requests made, and a settled panel shows the current page |
| Redraw.TurnsCycle | src/display.rs:297-306 | n turns from page i show page i + n modulo six |
| Redraw.OnlyPressesTurn | src/ui_task.rs:407-420 | a press turns one page on a lit screen and only wakes a dark one; no other step touches the page |
| Redraw.OnlyTheseAsk | src/ui_task.rs:421-440 | exactly the bump after a press and a refresh of a lit screen ask for a frame |
| Redraw.RecordedOnlyWhenCurrent | src/ui_task.rs:522-528 | in every reachable state a frame is recorded as drawn only while nothing newer is asked for, and then the page painted is current |
| Redraw.CaughtUpMeansCurrent | src/ui_task.rs:500-529 | panel between passes, button not between page store and bump, counters equal: the page painted is the current page |
| Redraw.OnePassCatchesUp | src/ui_task.rs:500-529 | with the screen on and the button at rest, one pass catches up and shows the current page, so no press is lost |
| RedrawTasks.UiTasks.constructor | src/ui_task.rs:258-262 | the shared atomics start in a boot state of the protocol |
| RedrawTasks.UiTasks.ButtonStep | src/ui_task.rs:407-440 | each step of the button loop is the corresponding step of the protocol |
| RedrawTasks.UiTasks.PanelPass | src/ui_task.rs:497-529 | one lap of the panel loop, interrupted anywhere: if it ends with the screen on, no request made since it began and none due, it has caught up and the current page is painted; otherwise the request stays open or the latest one is recorded, made no earlier than the lap began; a lap with nothing asked for repaints nothing |
| RedrawTasks.UiTasks.DrawFrame | src/ui_task.rs:501-528 | a frame during which nothing was asked for is recorded as drawn and shows the current page |
| RedrawTasks.UiTasks.ConfirmFrame | src/ui_task.rs:522-528 | a painted frame is recorded when neither page nor request moved since it was sampled, and no request but the latest is ever recorded |

## Left out

- Sockets, send and receive errors, UART, GPIO, SPI, I2C, Wi-Fi, mDNS, HTTP, NVS, logging and drawing: input and output only.
- The system clock: a reply sent before any anchor exists takes its timestamp as a parameter.
- Floating-point rounding: frequency and jitter are exact reals.
- `log2` precision, the processing-delay average and the mode-6 variable text: parameters of the reply.
- Weak-memory reordering of the atomics and fences in `src/pps.rs` and `src/ui_task.rs`: memory is sequentially consistent.
- Overflow of the few `i64` additions the source leaves unchecked: unbounded here.
- RMC and GGA fields, calendar and time zones: the line loop hands out every sentence instead of parsing two kinds of it.
- UTF-8 decoding: a chunk arrives decoded, or marked as not being UTF-8.
- Wrap-around of the pulse counter after 2^31 pulses and of the redraw counter after 2^32 requests: excluded by hypothesis.
- Button debounce, blanking delay and stall restart: blanking and refresh requests may happen at any time instead.
- Storage watchdog, SD log queue, pin registry, battery, RTC codec: outside the core.
- CapturedRuns.ConsecutiveJumpUnder71Ms: two edges 2^32 µs or more apart are excluded, because their interval is truncated.
- CapturedRuns.EveryPulseTrueExactly: instants and seconds are within 30 000 years, so that no saturating sum saturates.
- CapturedRuns.RepairedWithinTwoPulses: likewise the second the wrong anchor carries is within 10^18 of zero, so that adding to it and subtracting it cannot overflow.
- PpsMonitoring.PpsMonitor.Snapshot: ends because finitely many edges are still to come; nothing is promised under an endless stream of interrupts.
