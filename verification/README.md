# Carbon-aware scheduling experiments: a verified model

This project models four connected parts of the scheduling experiments and proves what they are for.

* **The closed admission loop.** `Bridge`, `BridgeSafety`, `BridgeTicks` and `SimulatorBridge` are the simulator-side
  bridge: it holds arrived jobs back, asks a controller, checks the reply, and falls back to submitting everything.
  `Controller`, `ControllerBooks`, `ControllerStep`, `ControllerOffers`, `ControllerBudget`, `ControllerGreedy`,
  `ControllerOutput`, `ControllerRuns`, `ControllerOrder` and `AdmissionController` are the controller: one step as a
  function, what it offers and to whom, the object that performs it in place, its books and its guarantees over whole
  runs. `Wire`, `ClosedLoop`, `ClosedLoopRuns`, `FractionalTick` and `SavingGuard` put both together.
* **The parallel replay scheduler.** `Scheduler` is a transition system whose steps are those of the single loop and
  of the workers, in any interleaving; `SchedulerRecords` gives the reason of every step, `SchedulerSafety` the
  invariant, `SchedulerGraph`, `SchedulerExit` and `SchedulerReach` say when a campaign can be completed,
  `ParallelRunner` is the object with its loops.
* **Load and carbon arithmetic.** `Intensity` (three mean algorithms), `Sweep`, `MarginalCost`, `PlanCarbon` and
  `CarbonRates` (midpoint sweeps and telescoping costs), `ScheduleForecast`, `IntervalAverage`, `NodeUnion`,
  `NodeUtilization`, and the planners `AdmissionCap` and `DelayBudgets`; `Selection` is the shared feasible-first
  choice.
* **The Hilbert curve codec.** `BitWords`, `HilbertCodec`, `HilbertInPlace`, `HilbertCurve` and `HilbertNeighbours`.

`Basics` holds what several of them share. Floating point is modelled by real numbers with the code's tolerances as
named constants, and by explicit rounding where the bridge can see it: the sum of a time and k ticks may be off by any
amount up to a bound (`Config.sumError`), and the product truncated to microseconds may round across a whole number
(`Wire.Rounding`). The bridge counts integer microseconds and the controller seconds; words of the codec are 32-bit
vectors. Clocks, observed job states, replies, worker results and guard verdicts are inputs that may take any value
the interface allows.

Three properties one would expect hold only under a condition, and the exact condition is proved:

* The bridge refuses a wake time that is not ahead of its clock while a job stays held, and then gives up on the
  controller. Whatever the tick and the rounding, a run without a transport failure whose arrivals are known jobs that
  fit the bridge's table ends with both sides in step **if and only if** no reply of it is refused for that reason
  (`ClosedLoopRuns.HealthyRunInStep`); nothing else in a reply can trip the failsafe. Rounding alone can: with a tick
  of 60 s, the release planned for an arrival at 538844373372 microseconds is 538904.373372 s and is sent as
  538904373371 (the product loses a microsecond), and the one planned for an arrival at 65495261502 is
  65555.26150200001 s, not yet due when 65555261502 comes (the sum gains a fraction). If nothing is asked of the
  minimum saving, the failsafe is silent **if and only if** the tick is a whole number of microseconds, sums do not
  round and products lose nothing (`FractionalTick.FailsafeSilentExactly`). A minimum saving removes all of it: over
  all configurations with a given tick of at least three microseconds, a minimum saving of p percent, least runtime r
  of a job that may be held, and intensities within [lo, hi], no exchange trips the failsafe, whatever the products
  lose and with sums off by up to a microsecond, **if and only if** p is positive and (100 - p) * (hi - lo) * 0.000002
  <= p * lo * r (`SavingGuard.GuardExactly`): a hold about to end then saves less than p percent, and the controller
  has dropped it. The shipped 5 percent is enough for runs of a second while hi is at most 26000 times lo.
* A campaign with one task to a key can be completed at all **if and only if** its bridge control is not a baseline or
  first repeat of one of its dates (such a control would wait for itself), the repeated policy exists where its repeat
  needs it, the secondary control belongs to one of its dates, and every task has a place: some backend with a slot,
  and the one its context names if it names one (`SchedulerReach.CompletesExactly`).
* A run gets a marginal carbon cost **if and only if** every instant of it has a carbon row: the coverage check lets
  up to a millisecond be missing, but a gap of any length is sampled and refused (`MarginalCost.MarginalCostOf`).

## Model

| member | source | states |
|---|---|---|
| ClosedLoopRuns.EventKeepsStep | simulator/slurm_policy_experiments/policy_v2/feedback.py:103-170 | Whatever the tick and the rounding, every arrival and every delivered tick keeps bridge and controller in step - the controller is told what the bridge observed and accepts the request, its reply passes all the bridge's checks, the bridge submits exactly the released jobs - exactly when the reply does not leave a hold with a wake time that reads as past; then the bridge submits everything that waits |
| ClosedLoopRuns.HealthyRunInStep | simulator/slurm_policy_experiments/policy_v2/feedback_bridge.h:64-149 | The same for whole runs without a transport failure: at the end both sides agree about every job and the failsafe is off exactly when no reply of the run was refused for a past wake time; otherwise the failsafe has tripped for good |
| ClosedLoopRuns.WholeRunInStep | simulator/slurm_policy_experiments/policy_v2/feedback.py:185-185 | With a whole tick and exact sums, a run stays in step exactly when no exchange that leaves a hold asks for the very next microsecond and loses it in the product |
| ClosedLoopRuns.RefusedIsUnlucky | simulator/slurm_policy_experiments/policy_v2/feedback_bridge.h:142-143 | With a whole tick and exact sums, that is the only way a reply is refused |
| ClosedLoopRuns.ExactProductsAreLucky | simulator/slurm_policy_experiments/policy_v2/feedback.py:185-185 | Where no product loses a microsecond, no exchange of a run does |
| ClosedLoopRuns.InStepMeans | simulator/slurm_policy_experiments/policy_v2/feedback_bridge.h:87-100 | Job by job, what the two sides' books say about each other |
| ClosedLoopRuns.ReplyAcceptedExactly | simulator/slurm_policy_experiments/policy_v2/feedback_bridge.h:124-144 | Whatever the tick: the reply is readable and names different pending jobs only; it is accepted exactly when nothing stays held or the wake time the bridge reads is still ahead |
| ClosedLoopRuns.ExchangeKeepsStep | simulator/slurm_policy_experiments/policy_v2/feedback_bridge.h:87-145 | One delivered exchange, any tick and rounding: valid request, a readable reply that is accepted exactly when nothing stays held or its wake time reads as ahead, and the joint invariant after obeying it |
| ClosedLoopRuns.QuietKeepsStep | simulator/slurm_policy_experiments/policy_v2/feedback_bridge.h:77-77 | A tick that asks nothing changes nothing, and no hold is due at it |
| ClosedLoopRuns.ArrivalKeepsStep | simulator/slurm_policy_experiments/policy_v2/feedback_bridge.h:45-50 | An arrival keeps both sides in step |
| ClosedLoopRuns.HoldLeavesInTime | simulator/slurm_policy_experiments/policy_v2/feedback.py:113-122 | A hold goes out in the first tick at or after its planned release, even when that tick trips the failsafe, so it waits at most its allowance plus the gap since the tick before, up to the rounding of its release |
| ClosedLoopRuns.LostExchangeSubmitsAll | simulator/slurm_policy_experiments/policy_v2/feedback_bridge.h:124-148 | An exchange that is not delivered submits every waiting job in the same tick |
| FractionalTick.FailsafeSilentExactly | simulator/slurm_policy_experiments/policy_v2/feedback.py:167-185 | For configurations with any minimum saving: delivered exchanges never trip the failsafe, for any jobs, signal and history, exactly when the tick is a whole number of microseconds, sums do not round and products lose no microsecond |
| FractionalTick.FractionTripsFailsafe | simulator/slurm_policy_experiments/policy_v2/feedback.py:185-185 | For every other tick: a one-job configuration and one tick at which the truncated wake time equals the current time and the bridge declares a failure |
| FractionalTick.LostMicrosecondTripsFailsafe | simulator/slurm_policy_experiments/policy_v2/feedback_bridge.h:142-143 | For every whole tick: a one-job configuration and one tick, a microsecond before the planned release, at which a lost microsecond makes the bridge declare a failure |
| FractionalTick.RoundedSumTripsFailsafe | simulator/slurm_policy_experiments/policy_v2/feedback.py:137-138 | For every whole tick: a one-job configuration whose release sum rounds up by a tenth of a microsecond, and the tick at which the bridge therefore declares a failure |
| SavingGuard.GuardExactly | simulator/slurm_policy_experiments/policy_v2/feedback.py:113-121 | For a tick of three microseconds or more, a minimum saving, a least runtime and a range of intensities: no configuration ever trips the failsafe, however products and sums round, exactly when less than two microseconds of waiting cannot save the minimum |
| SavingGuard.GuardedRunInStep | simulator/slurm_policy_experiments/policy_v2/feedback_bridge.h:64-149 | Whole runs of such a configuration without a transport failure stay in step |
| SavingGuard.HoldsAreAhead | simulator/slurm_policy_experiments/policy_v2/feedback.py:113-121 | After a step of such a configuration, the wake time is at least two microseconds away while a job is held |
| SavingGuard.MeanDrop | simulator/slurm_policy_experiments/policy_v2/feedback.py:28-38 | Starting later changes the mean over a run by at most the range of the intensity times the delay, per second of run |
| SavingGuard.FivePercentSuffice | simulator/slurm_policy_experiments/policy_v2/prepare_pilots.py:31-31 | The shipped minimum saving meets the condition for runs of a second and any realistic range |
| Wire.TruncationHarmlessExactly | simulator/slurm_policy_experiments/policy_v2/feedback.py:185-185 | In exact arithmetic, every future grid point is still in the future after truncation to microseconds exactly when the tick is whole |
| Wire.WholeSurvives | simulator/slurm_policy_experiments/policy_v2/feedback_bridge.h:142-143 | In exact arithmetic, a whole-microsecond wake time passes the past-wake check exactly when it is in the future |
| Wire.SentPassesExactly | simulator/slurm_policy_experiments/policy_v2/feedback.py:185-185 | A future whole wake time passes the check exactly unless it is the very next microsecond and the product loses it |
| Wire.BeforeSent | simulator/slurm_policy_experiments/policy_v2/feedback_bridge.h:77-77 | Before the wake time the bridge reads, the wake time asked for has not come, however the product rounded |
| ClosedLoop.MessageValid | simulator/slurm_policy_experiments/policy_v2/feedback_bridge.h:87-101 | The bridge's message is always one the controller accepts, and tells it the time, exactly the jobs not reported before, and the state and start of exactly the submitted jobs, each once |
| ClosedLoop.MessageTells | simulator/slurm_policy_experiments/policy_v2/feedback_bridge.h:68-101 | What is sent after a scan: pending, running or completed for exactly the submitted jobs, as just observed, with their start times; and exactly the unreported jobs with their arrival times |
| ClosedLoop.CountFits | simulator/slurm_policy_experiments/policy_v2/feedback_bridge.h:129-130 | Different ids of pending jobs are no more than the pending jobs, and as many only if none is left out |
| ControllerRuns.StepSucceedsExactly | simulator/slurm_policy_experiments/policy_v2/feedback.py:103-126 | In every reachable state a step raises an error exactly when the clock goes back, a snapshot names an unreleased job, or an arrival is unknown, repeated or seen before |
| ControllerRuns.StepOutcome | simulator/slurm_policy_experiments/policy_v2/feedback.py:103-170 | Everything a valid step does: each released job once; released are exactly the holds and arrivals not held afterwards; a hold ends exactly when due or useless; an offer becomes a hold exactly when no better offer of its job does (more utility, else earlier release, else smaller job) and it fits into its user's budget beside the holds kept and the holds from better offers; spent grows by the ended waits; spent plus reserved grows by lateness only |
| ControllerGreedy.GreedyAdmit | simulator/slurm_policy_experiments/policy_v2/feedback.py:152-163 | The ranked pass over the candidates obeys that greedy law, with the comparison spelled out |
| ControllerGreedy.ReservedAtTurn | simulator/slurm_policy_experiments/policy_v2/feedback.py:156-163 | When an offer's turn comes, its user's commitment is what was spent plus exactly the reserves kept and those from better offers |
| ControllerOutput.StepOrder | simulator/slurm_policy_experiments/policy_v2/feedback.py:111-166 | A step releases first the holds that end, in the order they were taken up, then the arrivals with nothing to hold for, in arrival order, then the jobs that found no budget, those with the better best offer first |
| ControllerOffers.OfferedExactly | simulator/slurm_policy_experiments/policy_v2/feedback.py:127-150 | What a step offers: to flexible jobs with a reliable prediction, outside the baseline mode, exactly the future releases a whole number of ticks after arrival within both limits, later than the backlog alone would start the run, and worth the minimum saving |
| ControllerOffers.BacklogExactly | simulator/slurm_policy_experiments/policy_v2/feedback.py:54-71 | The backlog is the fraction times run time of the pool's pending jobs plus the fraction times remaining run time, a tick at least, of its running jobs, if something waits there or the job does not fit beside what runs; otherwise nothing |
| ControllerOffers.GainExactly | simulator/slurm_policy_experiments/policy_v2/feedback.py:73-87 | An option passes the gain gate exactly when both runs lie inside the signal and the later one needs at least the minimum percentage less carbon |
| ControllerOffers.UtilityMeans | simulator/slurm_policy_experiments/policy_v2/feedback.py:82-86 | An option's utility, times the length of the hold (a second at least), is the job's share of the carbon saved per hour |
| ControllerOffers.EndsExactly | simulator/slurm_policy_experiments/policy_v2/feedback.py:113-122 | A hold ends exactly when it is due or no longer worth the minimum saving |
| ControllerOffers.OnGridExactly | simulator/slurm_policy_experiments/policy_v2/feedback.py:134-138 | The release grid: every positive whole number of ticks that neither limit of the hold excludes |
| ControllerRuns.WholeRun | simulator/slurm_policy_experiments/policy_v2/feedback.py:88-170 | Over whole runs: seen is the disjoint union of held and released, no job is released twice, and each user's waits plus reservations stay within the budget (plus slack) plus the summed lateness, which is zero when every step comes by the requested wake time |
| ControllerRuns.RunKeeps | simulator/slurm_policy_experiments/policy_v2/feedback.py:88-116 | The same from any sound state, with `spent` exactly the sum of the waits that ended |
| ControllerRuns.TimelyMeansNoLateness | simulator/slurm_policy_experiments/policy_v2/feedback.py:167-170 | Steps no later than the previous wake time have no lateness |
| ControllerRuns.WaitIsBounded | simulator/slurm_policy_experiments/policy_v2/feedback.py:113-121 | A due hold leaves at once, and no hold lasts longer than its allowance plus the step's lateness, up to the rounding of its planned release |
| ControllerRuns.WakeIsEarliest | simulator/slurm_policy_experiments/policy_v2/feedback.py:167-169 | The wake time is the earlier of one tick from now and the first planned release, or a day when idle |
| ControllerRuns.WakeInFuture | simulator/slurm_policy_experiments/policy_v2/feedback.py:167-169 | The wake time is strictly in the future |
| ControllerOrder.ArrivalOrderIrrelevant | simulator/slurm_policy_experiments/policy_v2/feedback.py:123-166 | Permuting simultaneous arrivals gives the same state, wake time and multiset of releases |
| ControllerOrder.SortedUnique | simulator/slurm_policy_experiments/policy_v2/feedback.py:152-152 | Candidates with distinct sort keys have one sorted order |
| ControllerGreedy.CandidatesKeyed | simulator/slurm_policy_experiments/policy_v2/feedback.py:152-152 | No two different candidates of one step share the key (-utility, release, job) |
| ControllerBudget.StepInPhases | simulator/slurm_policy_experiments/policy_v2/feedback.py:111-170 | A valid request runs through the four phases, and each does what its own statement promises |
| ControllerBudget.AdmitEffect | simulator/slurm_policy_experiments/policy_v2/feedback.py:153-163 | The ranked pass: new holds are candidates, refused candidates still overflow at the end, and a user's commitment grows at most to the budget |
| ControllerBudget.ReleaseRestEffect | simulator/slurm_policy_experiments/policy_v2/feedback.py:164-166 | Exactly the candidates' jobs that found no budget are released, once |
| ControllerStep.RecheckEffect | simulator/slurm_policy_experiments/policy_v2/feedback.py:113-122 | The recheck ends exactly the due or useless holds and converts reservations into real waits |
| ControllerStep.GatherForm | simulator/slurm_policy_experiments/policy_v2/feedback.py:123-150 | Fresh arrivals: one concatenation of immediate releases and candidates |
| ControllerStep.GatherRejects | simulator/slurm_policy_experiments/policy_v2/feedback.py:124-127 | An arrival that is not fresh stops the step |
| ControllerStep.CandidatesExactly | simulator/slurm_policy_experiments/policy_v2/feedback.py:128-150 | An arrival's candidates are exactly the future grid points within the allowance whose option passes both gates |
| ControllerBooks.ReleaseHeld | simulator/slurm_policy_experiments/policy_v2/feedback.py:88-100 | Releasing a held job keeps the books exact: the reservation goes, the real wait is spent |
| ControllerBooks.PlannedBounds | simulator/slurm_policy_experiments/policy_v2/feedback.py:134-138 | A planned hold lasts a positive time within the allowance, up to the rounding of its release sum |
| AdmissionController.Admission.Step | simulator/slurm_policy_experiments/policy_v2/feedback.py:103-170 | The stateful step, loops and all, computes exactly the specified step; from a sound state it fails exactly on an invalid request, and otherwise does everything a valid step does |
| AdmissionController.Admission.Pressure | simulator/slurm_policy_experiments/policy_v2/feedback.py:54-71 | The loop over observed states returns the pool's waiting and remaining work, or nothing when nothing waits there and the job fits beside what runs |
| AdmissionController.Admission.Offers | simulator/slurm_policy_experiments/policy_v2/feedback.py:134-150 | The candidates read off the audit of `choose` are the specified ones |
| AdmissionController.Admission.Release | simulator/slurm_policy_experiments/policy_v2/feedback.py:88-101 | Pop, book and release in place |
| AdmissionController.Admission.constructor | simulator/slurm_policy_experiments/policy_v2/feedback.py:42-49 | A new controller is in the sound start state |
| Selection.Choose | simulator/slurm_policy_experiments/policy_v2/selection.py:20-39 | Picks the best option that passes every gate with a finite score - better score, else earlier release, else earlier place - and fills in every audit row |
| Selection.FailuresExactly | simulator/slurm_policy_experiments/policy_v2/selection.py:23-26 | The reasons name exactly the failed gates, in gate order |
| Selection.ChoiceUnique | simulator/slurm_policy_experiments/policy_v2/selection.py:34-34 | The choice is determined by the options and gates |
| Selection.AuditTellsFeasible | simulator/slurm_policy_experiments/policy_v2/selection.py:28-38 | A row is feasible exactly when it is accepted or marked of lower rank |
| Selection.FeasibleFirstRefinesTopThenGates | simulator/slurm_policy_experiments/generate_policy_scenario.py:636-645 | Whenever the original rule accepts its top option, feasible-first picks the same; the two agree exactly when the top option is feasible or none is |
| BridgeSafety.AllOrNothing | simulator/slurm_policy_experiments/policy_v2/feedback_bridge.h:78-148 | A tick that reaches the exchange submits exactly the ids of a fully checked reply, or every waiting job and fails for good |
| BridgeTicks.TickExactly | simulator/slurm_policy_experiments/policy_v2/feedback_bridge.h:64-149 | A tick in full: nothing unless something changed or a job waits at its wake time; otherwise the states observed are taken over, a reply that passes is obeyed, and any other outcome submits every waiting job and fails for good |
| BridgeTicks.AsksExactly | simulator/slurm_policy_experiments/policy_v2/feedback_bridge.h:68-77 | The bridge asks exactly when a state changed, a job is new, or a job waits and the wake time has come |
| BridgeTicks.PassesExactly | simulator/slurm_policy_experiments/policy_v2/feedback_bridge.h:124-143 | A reply passes exactly when it holds a wake time, a count and that many different ids of waiting jobs, no more than wait, and its wake time is ahead unless it names them all |
| BridgeSafety.SubmittedOnce | simulator/slurm_policy_experiments/policy_v2/feedback_bridge.h:29-38 | Over any run the ids handed over are exactly the submitted jobs, each once |
| BridgeSafety.NextKeepsTrace | simulator/slurm_policy_experiments/policy_v2/feedback_bridge.h:45-149 | No event hands a job over twice or without marking it |
| BridgeSafety.FailsafeDrains | simulator/slurm_policy_experiments/policy_v2/feedback_bridge.h:77-78 | After a failure: stays failed, the next tick submits every later arrival, and the first tick at or after the wake time submits every hold |
| BridgeSafety.ArrivalNoticed | simulator/slurm_policy_experiments/policy_v2/feedback_bridge.h:45-50 | An arrival is held back as something new, or passed on directly when the table is full |
| BridgeSafety.ObeyExactly | simulator/slurm_policy_experiments/policy_v2/feedback_bridge.h:141-145 | An obeyed reply: all reported, wake set, exactly the named jobs submitted |
| BridgeSafety.FallbackExactly | simulator/slurm_policy_experiments/policy_v2/feedback_bridge.h:146-148 | The fallback submits the waiting jobs in order and nothing else |
| Bridge.PlacesExactly | simulator/slurm_policy_experiments/policy_v2/feedback_bridge.h:132-140 | The places found for a reply's ids are different unsubmitted jobs with those ids |
| SimulatorBridge.PolicyBridge.Tick | simulator/slurm_policy_experiments/policy_v2/feedback_bridge.h:64-149 | The tick on the fixed job table computes exactly the specified tick; re-entrant calls do nothing |
| SimulatorBridge.PolicyBridge.Read | simulator/slurm_policy_experiments/policy_v2/feedback_bridge.h:124-140 | Reading id by id accepts exactly the well-formed replies |
| SimulatorBridge.PolicyBridge.Scan | simulator/slurm_policy_experiments/policy_v2/feedback_bridge.h:68-76 | The observation loop takes over the states and reports exactly whether anything is new |
| SimulatorBridge.PolicyBridge.Arrive | simulator/slurm_policy_experiments/policy_v2/feedback_bridge.h:45-50 | Arrival in place, with the capacity and disabled cases |
| SimulatorBridge.PolicyBridge.ReleaseAll | simulator/slurm_policy_experiments/policy_v2/feedback_bridge.h:146-148 | The fallback loop |
| SchedulerSafety.EveryRun | simulator/slurm_policy_experiments/run_multiday_parallel.py:293-342 | In every interleaving: started tasks had complete dependencies, no key is started twice, totals and backend slots are respected, complete stays complete, and nothing starts after a failure; a key becomes complete only because a complete record was posted for it or its worker returned one; a worker leaves only by being collected, and one that raised leaves a failed record with its earlier context, and the failure |
| SchedulerSafety.NextKeeps | simulator/slurm_policy_experiments/run_multiday_parallel.py:293-342 | One step of loop or worker keeps the scheduler's invariant, including that no stale event overwrites a complete record; every record that changes was posted or collected |
| SchedulerRecords.StepAccounted | simulator/slurm_policy_experiments/run_multiday_parallel.py:201-210 | In any step a record changes only by taking over a posted one or by collecting its worker, and no posted record is dropped |
| SchedulerRecords.ReasonInRun | simulator/slurm_policy_experiments/run_multiday_parallel.py:296-307 | Over any run: between an incomplete and a complete record of a key lies a step that posted or returned a complete one; between active and not active lies its collection |
| SchedulerRecords.StartsExactly | simulator/slurm_policy_experiments/run_multiday_parallel.py:324-337 | A task is started exactly when it is neither active nor complete, everything it waits for is complete, and some backend that suits it has a free slot |
| SchedulerRecords.StartsWhere | simulator/slurm_policy_experiments/run_multiday_parallel.py:59-69 | It runs on the first backend with a free slot that is the one it was left on, the one it is pinned to, or any |
| SchedulerRecords.BackendExactly | simulator/slurm_policy_experiments/run_multiday_parallel.py:59-69 | The backend chosen is that first one, and none only if there is none |
| SchedulerSafety.StartsReady | simulator/slurm_policy_experiments/run_multiday_parallel.py:323-337 | A key starts only when ready, not complete, not after a failure, and within the total |
| SchedulerSafety.HarvestKeeps | simulator/slurm_policy_experiments/run_multiday_parallel.py:296-307 | Collecting a result after draining loses no complete record |
| SchedulerSafety.ConsiderLimits | simulator/slurm_policy_experiments/run_multiday_parallel.py:59-69 | A start keeps every backend within its slots |
| SchedulerGraph.FinishesExactly | simulator/slurm_policy_experiments/run_multiday_parallel.py:27-43 | Nothing startable means everything complete, whatever records a campaign resumes, exactly when the bridge control is neither baseline nor first repeat of one of its dates, the repeated policy exists where needed, and the secondary control belongs to one of its dates |
| SchedulerGraph.SensibleFinishes | simulator/slurm_policy_experiments/run_multiday_parallel.py:185-190 | In a sensible campaign only complete graphs are stalled |
| SchedulerGraph.SelfWaitHangs | simulator/slurm_policy_experiments/run_multiday_parallel.py:186-190 | A bridge control that is a baseline or first repeat is a blocked key: all its tasks wait for itself |
| SchedulerGraph.MissingPolicyHangs | simulator/slurm_policy_experiments/run_multiday_parallel.py:41-42 | Without the repeated policy, it and its repeat are blocked keys: no task provides the one, the other waits for it |
| SchedulerGraph.ForeignSecondaryHangs | simulator/slurm_policy_experiments/run_multiday_parallel.py:180-184 | A secondary control of a foreign date and that date's baseline are blocked keys |
| SchedulerGraph.UnsensibleHangs | simulator/slurm_policy_experiments/run_multiday_parallel.py:27-43 | Every configuration that is not sensible has blocked keys among its tasks |
| SchedulerExit.HealthyExitIsComplete | simulator/slurm_policy_experiments/run_multiday_parallel.py:323-342 | Leaving the loop without a failure means every task is complete |
| SchedulerExit.ExitStalled | simulator/slurm_policy_experiments/run_multiday_parallel.py:324-341 | A healthy exit leaves nothing that could be started |
| SchedulerExit.SelfWaiterNeverStarts | simulator/slurm_policy_experiments/run_multiday_parallel.py:46-47 | A key that waits for itself is never started in any run |
| SchedulerExit.BlockedNeverStart | simulator/slurm_policy_experiments/run_multiday_parallel.py:323-332 | Keys each of whose tasks waits for one of them are never started and never complete, in any run, unless complete at the start |
| SchedulerExit.MissingKeyNeverDone | simulator/slurm_policy_experiments/run_multiday_parallel.py:46-47 | A key that no task provides is never complete in any run, unless it was from the start |
| SchedulerExit.UnsensibleNeverCompletes | simulator/slurm_policy_experiments/run_multiday_parallel.py:293-342 | From fresh records, no run of a campaign that is not sensible completes it at any point |
| SchedulerExit.UnplacedNeverStarts | simulator/slurm_policy_experiments/run_multiday_parallel.py:59-69 | A key none of whose tasks has a place on a backend is never started and never complete in any run, unless complete at the start |
| SchedulerExit.UnplaceableNeverCompletes | simulator/slurm_policy_experiments/run_multiday_parallel.py:59-69 | From fresh records, no run completes a campaign with a task that has no place |
| SchedulerReach.CompletesExactly | simulator/slurm_policy_experiments/run_multiday_parallel.py:293-342 | From fresh records, one task to a key: campaigns that are sensible and whose tasks all have a place are complete at the end of every run without a failure, and no other is complete in any reachable state |
| SchedulerReach.SomeRunEnds | simulator/slurm_policy_experiments/run_multiday_parallel.py:293-342 | From any records, some run ends without a failure |
| SchedulerReach.LoopNeverStuck | simulator/slurm_policy_experiments/run_multiday_parallel.py:293-342 | In every state that keeps the invariant the loop has a next step, unless it has exited |
| SchedulerExit.PassIsSteps | simulator/slurm_policy_experiments/run_multiday_parallel.py:323-337 | One scheduling pass is a sequence of single steps |
| SchedulerExit.DrainIsSteps | simulator/slurm_policy_experiments/run_multiday_parallel.py:201-210 | A whole drain of the queue is a sequence of single steps |
| ParallelRunner.Runner.constructor | simulator/slurm_policy_experiments/run_multiday_parallel.py:167-196 | Builds, rewires and orders the tasks: the same tasks, live work first, then the controls, each kind in graph order; and the invariant holds |
| ParallelRunner.Runner.StartReady | simulator/slurm_policy_experiments/run_multiday_parallel.py:323-337 | The scheduling loop computes the specified pass |
| ParallelRunner.Runner.Choose | simulator/slurm_policy_experiments/run_multiday_parallel.py:59-69 | The backend loop finds the first fitting backend |
| ParallelRunner.Runner.Drain | simulator/slurm_policy_experiments/run_multiday_parallel.py:201-210 | The drain loop leaves every key with the record posted last for it, or the record it had |
| ParallelRunner.Runner.Collect | simulator/slurm_policy_experiments/run_multiday_parallel.py:296-307 | Draining first; then what the worker returned is its record, or, if it raised, a failed record with the context it had, and the run is condemned |
| ParallelRunner.TasksOf | simulator/slurm_policy_experiments/run_multiday_parallel.py:27-43 | The graph built loop by loop is the specified graph |
| SchedulerGraph.BuildExactly | simulator/slurm_policy_experiments/run_multiday_parallel.py:27-43 | Task by task, what is in the graph and what it waits for: baselines, policies, repeats, the secondary control, and the bridge control with its own dependencies |
| ParallelRunner.PrioritisedKeepsTasks | simulator/slurm_policy_experiments/run_multiday_parallel.py:192-193 | The reordering keeps every task, puts live work first and the controls next, and keeps the order of each kind |
| HilbertNeighbours.HilbertNeighbourPoints | simulator/slurm_simulator_source_legacy_desktop/contribs/skilling.c:37-61 | For every dimension and up to 31 bits, consecutive Hilbert integers decode to points that differ by one in exactly one coordinate |
| HilbertCodec.AxesRoundTrip | simulator/slurm_simulator_source_legacy_desktop/contribs/skilling.c:37-89 | Decoding undoes encoding, and every word stays below 2^b |
| HilbertCodec.TransposeRoundTrip | simulator/slurm_simulator_source_legacy_desktop/contribs/skilling.c:37-89 | Encoding undoes decoding, and every word stays below 2^b |
| HilbertInPlace.TransposeToAxes | simulator/slurm_simulator_source_legacy_desktop/contribs/skilling.c:37-61 | The in-place decoder computes the specified map, and the encoder undoes it |
| HilbertInPlace.AxesToTranspose | simulator/slurm_simulator_source_legacy_desktop/contribs/skilling.c:62-89 | The in-place encoder computes the specified map, and the decoder undoes it |
| HilbertInPlace.SpreadLoop | simulator/slurm_simulator_source_legacy_desktop/contribs/skilling.c:83-85 | The doubling shift loop computes the XOR of all right shifts |
| HilbertCodec.SpreadIsAllShifts | simulator/slurm_simulator_source_legacy_desktop/contribs/skilling.c:84-85 | The doubling loop equals the full prefix XOR and inverts the Gray step |
| HilbertCodec.ExchangeInvolution | simulator/slurm_simulator_source_legacy_desktop/contribs/skilling.c:55-59 | Each exchange or inversion undoes itself |
| HilbertCodec.RedoAfterUndoLevels | simulator/slurm_simulator_source_legacy_desktop/contribs/skilling.c:53-78 | The double loop is reversed exactly |
| HilbertCodec.UndoAfterRedoLevels | simulator/slurm_simulator_source_legacy_desktop/contribs/skilling.c:53-78 | The double loop is reversed exactly, in the other order |
| HilbertCodec.GrayDecodeAfterEncode | simulator/slurm_simulator_source_legacy_desktop/contribs/skilling.c:81-88 | Gray decode undoes Gray encode |
| HilbertCodec.GrayEncodeAfterDecode | simulator/slurm_simulator_source_legacy_desktop/contribs/skilling.c:45-49 | Gray encode undoes Gray decode |
| Intensity.Mean | simulator/slurm_policy_experiments/policy_v2/feedback.py:28-38 | The cursor loop terminates and returns the integral over the duration, or nothing outside the covered window |
| Intensity.RuntimeAverage | simulator/slurm_policy_experiments/generate_policy_scenario.py:97-114 | The overlap scan returns integral over covered time, or refuses more than 1 ms of missing cover |
| Intensity.ThreeMeansAgree | tools/maintenance/analyze_multiday_outcomes.py:112-127 | Cursor loop, overlap scan and interpolated prefix integral return the same mean on a covering table |
| Intensity.MeanWithinRange | simulator/slurm_policy_experiments/policy_v2/feedback.py:28-38 | The mean lies between the signal's extremes |
| Intensity.MeansCombine | simulator/slurm_policy_experiments/policy_v2/feedback.py:28-38 | Duration-weighted means add over adjacent windows |
| Intensity.FullyCovered | simulator/slurm_policy_experiments/generate_policy_scenario.py:97-114 | A window inside a contiguous table is covered in full |
| MarginalCost.MarginalCostOf | simulator/slurm_policy_experiments/generate_policy_scenario.py:195-284 | The midpoint sweep returns exact integrals over the run, for any real offsets and run time, and the exact peak; it succeeds exactly when every instant of the run has a row, and reports missing cover beyond a millisecond |
| PlanCarbon.CostsTelescope | simulator/slurm_policy_experiments/generate_policy_scenario.py:1117-1125 | Node and capacity costs, summed in planning order, equal the integral of the final plan's carbon rate |
| PlanCarbon.PlanningOrderIrrelevant | simulator/slurm_policy_experiments/generate_policy_scenario.py:227-284 | The summed costs do not depend on the planning order |
| PlanCarbon.MeanLoadExact | simulator/slurm_policy_experiments/generate_policy_scenario.py:277-284 | The mean load is the job's share plus every planned job's share of the run |
| CarbonRates.NodeRate | simulator/slurm_policy_experiments/generate_policy_scenario.py:256-277 | At any instant a job is charged the intensity times what still fits of its nodes below full load, per hour |
| CarbonRates.ClassRate | simulator/slurm_policy_experiments/generate_policy_scenario.py:251-276 | The same in its class, weighted by the class's share of the 202 nodes |
| CarbonRates.TotalRates | simulator/slurm_policy_experiments/generate_policy_scenario.py:261-277 | The final plan is charged its load, up to full load, times the intensity |
| CarbonRates.OnlyRunningLoad | simulator/slurm_policy_experiments/generate_policy_scenario.py:251-260 | Only jobs that run at the instant load the nodes, and each only its own class |
| PlanCarbon.ProjectedClassLoad | simulator/slurm_policy_experiments/generate_policy_scenario.py:163-192 | Exact mean and peak of the projected class load |
| Sweep.SweepExact | simulator/slurm_policy_experiments/generate_policy_scenario.py:180-191 | Sampling a step curve at the midpoints between its breakpoints gives its exact integral |
| Sweep.SameArea | simulator/slurm_policy_experiments/generate_policy_scenario.py:180-191 | The integral of a step curve does not depend on the partition that shows its steps |
| Sweep.IntegralAdds | simulator/slurm_policy_experiments/generate_policy_scenario.py:180-191 | Integrals over adjacent windows add up |
| MarginalCost.EveryInstantCovered | simulator/slurm_policy_experiments/generate_policy_scenario.py:209-224 | The covered length is the whole window exactly when every instant of it has a row |
| ScheduleForecast.ForecastTable.Background | simulator/slurm_policy_experiments/generate_policy_scenario.py:374-386 | Removing a job leaves exactly the others' load: the clip at zero never acts |
| ScheduleForecast.ForecastTable.Move | simulator/slurm_policy_experiments/generate_policy_scenario.py:916-918 | After a move every column is again the sum of all jobs at their current starts |
| ScheduleForecast.ForecastTable.constructor | simulator/slurm_policy_experiments/generate_policy_scenario.py:333-353 | The built forecast is the sum of all jobs |
| ScheduleForecast.MoveConserves | simulator/slurm_policy_experiments/generate_policy_scenario.py:287-301 | A move inside the horizon conserves every column's load-seconds |
| ScheduleForecast.ForecastTable.ApplyDelays | simulator/slurm_policy_experiments/generate_policy_scenario.py:916-918 | Over the planner's whole pass, whatever delays its guards accept: the table stays the sum of all jobs at their current starts, and no column gains or loses load-seconds |
| ScheduleForecast.DelaysConserve | simulator/slurm_policy_experiments/generate_policy_scenario.py:881-890 | Any sequence of accepted delays conserves the load-seconds of every column |
| ScheduleForecast.LoadSecondsExactly | simulator/slurm_policy_experiments/generate_policy_scenario.py:287-301 | While every job runs inside the horizon, a column holds each job's share in it for the whole run time |
| ScheduleForecast.JobLoadExactly | simulator/slurm_policy_experiments/generate_policy_scenario.py:287-301 | In an interval a job loads its own class and the nodes, and nothing else, by its share for the time it runs there |
| ScheduleForecast.DelayedExactly | simulator/slurm_policy_experiments/generate_policy_scenario.py:916-918 | The pass changes starts only, each to the release last accepted for the job |
| ScheduleForecast.AcceptedMoveFits | simulator/slurm_policy_experiments/generate_policy_scenario.py:881-890 | The moves the planner accepts stay inside the horizon |
| AdmissionCap.Plan | simulator/slurm_policy_experiments/generate_policy_scenario.py:1382-1410 | Every start lies in its window, and is in low-carbon time, within the node cap counted over the jobs planned before that run then, or at its deadline; jobs move only if they had to, and pass over no low-carbon row of a second or more; there is no plan only if a flexible job's window holds an instant no row covers |
| AdmissionCap.Search | simulator/slurm_policy_experiments/generate_policy_scenario.py:1391-1404 | The search ends, after looking at exactly the row ends (or a second later) from the release on until the job may start; it starts within the first second of the next low-carbon row (of a second or more) at the latest, and fails only for a flexible job at an instant no row covers |
| AdmissionCap.OnlyRunningCount | simulator/slurm_policy_experiments/generate_policy_scenario.py:1396-1398 | The active nodes are those of the jobs that run at the instant: others may be left out of the schedule, one running job more adds its nodes |
| AdmissionCap.ActiveAreRunning | simulator/slurm_policy_experiments/generate_policy_scenario.py:1396-1410 | Against the plan so far, they are the nodes of the jobs whose start is past and whose end is not |
| AdmissionCap.SearchProgresses | simulator/slurm_policy_experiments/generate_policy_scenario.py:1401-1404 | Each round gains a whole second or reaches the deadline |
| AdmissionCap.NextPrompt | simulator/slurm_policy_experiments/generate_policy_scenario.py:1391-1404 | A round in high-carbon time skips no low-carbon row of a second or more |
| DelayBudgets.PlanLowImpact | simulator/slurm_policy_experiments/generate_low_impact_dynamic_scenario.py:191-341 | Every decision is the greedy one within its budgets; user totals and counts stay within the limits; barred jobs stay; what is written is at most half a second off |
| DelayBudgets.PlanSafeRolling | simulator/slurm_policy_experiments/generate_safe_rolling_scenario.py:210-386 | The same on whole steps, with exact releases for whole-second eligibility |
| DelayBudgets.AllowedExactly | simulator/slurm_policy_experiments/generate_low_impact_dynamic_scenario.py:199-207 | A delay is within the budget exactly when the longest delay, both of the job's limits and what is left of the user's budget allow it |
| DelayBudgets.LowImpactExactly | simulator/slurm_policy_experiments/generate_low_impact_dynamic_scenario.py:56-76 | What is offered: no delay, or one from which the run fits the table: to a boundary, a whole number of steps, or the whole budget |
| DelayBudgets.HalfToEven | simulator/slurm_policy_experiments/generate_low_impact_dynamic_scenario.py:312-312 | A release half-way between two seconds goes to the even one |
| DelayBudgets.BoundedDelays | simulator/slurm_policy_experiments/generate_low_impact_dynamic_scenario.py:56-76 | The candidate set is exactly the boundaries, the grid and the deadline from which the run fits |
| DelayBudgets.SteppedDelays | simulator/slurm_policy_experiments/generate_safe_rolling_scenario.py:228-228 | Every whole step within the budget, and no more |
| DelayBudgets.Decide | simulator/slurm_policy_experiments/generate_low_impact_dynamic_scenario.py:308-310 | The best feasible offer, ties to the earlier |
| IntervalAverage.AddIntervalAverage | simulator/slurm_policy_experiments/build_history_quantile_model.py:429-466 | Difference array and running sum add exactly weight times overlap to every bin |
| IntervalAverage.SharesAddUp | simulator/slurm_policy_experiments/build_history_quantile_model.py:436-466 | The four array updates of one interval add up to its overlap, and cancel for an empty interval on a bin boundary |
| IntervalAverage.MassConserved | simulator/slurm_policy_experiments/build_history_quantile_model.py:429-466 | All bins together receive weight times length |
| NodeUnion.Merge | simulator/slurm_policy_experiments/build_history_quantile_model.py:404-414 | Sort and merge gives ordered spans with gaps between them that cover exactly the same instants |
| NodeUnion.UnionLength | simulator/slurm_policy_experiments/calculate_carbon.py:176-185 | The summing loop returns the number of covered instants |
| NodeUnion.BothWaysAgree | simulator/slurm_policy_experiments/build_history_quantile_model.py:396-426 | Merging a month and cutting by bins equals clipping to a bin and merging |
| NodeUtilization.AllocatedUtilization | simulator/slurm_policy_experiments/calculate_carbon.py:151-186 | The exact share of node-seconds at which some job that names the node runs; the clamp to 1 never acts |
| NodeUtilization.UniqueNodeLoad | simulator/slurm_policy_experiments/build_history_quantile_model.py:387-426 | Every bin holds exactly that share, and the count is that of the cluster's nodes named by a job that reaches into the month |
| NodeUtilization.CanonicalNodes | simulator/slurm_policy_experiments/build_history_quantile_model.py:370-384 | There are exactly 202 canonical node names |
| NodeUtilization.ExpandIsCanonical | simulator/slurm_policy_experiments/calculate_carbon.py:110-148 | Expanding a node list yields canonical names only |
| NodeUtilization.ExpandExactly | simulator/slurm_policy_experiments/calculate_carbon.py:110-148 | It yields exactly the canonical nodes of the list's kind that it names, alone or inside a range, both ends included |
| NodeUtilization.OccupancyCounts | simulator/slurm_policy_experiments/calculate_carbon.py:161-185 | The merged intervals, added up over the nodes, count each second of each node once at which a job naming it runs |
| NodeUtilization.TouchedExactly | simulator/slurm_policy_experiments/build_history_quantile_model.py:387-426 | The nodes counted are those some job that reaches into the month names |
| NodeUtilization.OccupancyBound | simulator/slurm_policy_experiments/calculate_carbon.py:186-186 | Occupied node-time is at most 202 nodes all the time |

## Left out

- Sockets, polling, JSON and CSV text, Docker, file locks and hashing: a message arrives whole or not at all, a worker
  returns or raises.
- IEEE rounding, except in the release sums and in the product sent as wake time, and the decimal text of the times on
  the wire: other seconds, means and gains are exact reals.
- The controller's audit records: they never influence a decision.
- Job ids are numbers; the controller's tie-break compares the zero-padded names, which agrees up to six digits.
- Sorting and validity checks of the carbon points in `Signal`'s constructor are the precondition `ValidSignal`.
- A controller step that fails leaves its object half changed; the process ends there, so only the error is specified.
- The overflow of 64-bit wake times near the end of the range: the model's integers are unbounded.
- The re-entrancy of `v2_tick` through `submit_job`: a call while busy does nothing, what it would interrupt is not
  shown.
- Slurm's own placement: the states of submitted jobs may change in any way.
- The carbon guards of the parallel runner, the per-date analysis and the status file: a guard may fail at any time.
- What replay workers do inside: a worker that has posted a complete record posts only complete records afterwards and
  returns.
- The random shuffle of the policies: any permutation per date.
- The early return of `add_interval_average` when every interval lies in one bin: the later stages then add nothing.
- Months that are no whole number of bins.
- Node lists are given as parsed names and ranges; matching the text is left out.
- The utilities, penalties and gates of the planners, as formulas: they enter as an arbitrary assessment of each
  delay, which may depend on everything chosen before.
- The cap and quantile values of the B2 planner are inputs, and the rounding of its written release to a whole second.
- The in-place decoder beyond 30 bits per word and the encoder beyond 31, where the source's shift leaves the range of
  a signed integer.
- A node cap of the B2 planner at all times: it checks a job only against the jobs planned before it, at its start.
- Quantile fitting, random draws, plots, reports and summaries: statistics or presentation.
