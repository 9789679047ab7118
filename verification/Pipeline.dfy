/**
 * The pipeline between capture and output (cmd/tlscensus/pipeline.go, watch.go) as interleaved steps of any number of
 * goroutines over two locks: the assembler lock `mu`, and the output lock the streaming writer takes.
 */
module Pipeline {
  import opened Bytes

  /** A record is known by its position among all records folded into the accumulator. */
  type Rec = nat

  /** Which entry point a goroutine is in: `packet` or `flushOlderThan`, or `finish`. */
  datatype Entry = Feed | Finish

  /** Where a goroutine is. `recs` are the records it has taken and not delivered yet. */
  datatype Pc =
    | Idle
    | WantMu(entry: Entry)
    | InAssembler(entry: Entry)
    | Took(entry: Entry, recs: seq<Rec>)
    | Delivering(entry: Entry, recs: seq<Rec>)
    | WantOut(entry: Entry, recs: seq<Rec>)
    | Writing(entry: Entry, recs: seq<Rec>)
    | WantMuAgain
    | Summarising
    | Finished

  /** `folded` counts the records added to the accumulator; `written` are those `onRecord` has been called with. */
  datatype State = State(
    threads: seq<Pc>, mu: Option<nat>, out: Option<nat>,
    streaming: bool, folded: nat, pending: seq<Rec>, written: seq<Rec>)

  predicate HoldsMu(pc: Pc) {
    pc.InAssembler? || pc.Took? || pc.Summarising?
  }

  predicate HoldsOut(pc: Pc) {
    pc.Writing?
  }

  predicate Waits(pc: Pc) {
    pc.WantMu? || pc.WantMuAgain? || pc.WantOut?
  }

  function InHand(pc: Pc): seq<Rec> {
    if pc.Took? || pc.Delivering? || pc.WantOut? || pc.Writing? then pc.recs else []
  }

  // ---------------------------------------------------------------- steps

  datatype Action = Begin(entry: Entry) | Lock | Handle | TakePending | Unlock
                  | NextRecord | LockOut | Write | EndDelivery
                  | LockAgain | Report

  predicate Enabled(s: State, t: nat, a: Action) {
    && t < |s.threads|
    && var pc := s.threads[t];
       match a
       case Begin(_) => pc.Idle?
       case Lock => pc.WantMu? && s.mu.None?
       case Handle => pc.InAssembler?
       case TakePending => pc.InAssembler?
       case Unlock => pc.Took?
       case NextRecord => pc.Delivering? && pc.recs != []
       case LockOut => pc.WantOut? && s.out.None?
       case Write => pc.Writing? && pc.recs != []
       case EndDelivery => pc.Delivering? && pc.recs == []
       case LockAgain => pc.WantMuAgain? && s.mu.None?
       case Report => pc.Summarising?
  }

  function Goto(s: State, t: nat, pc: Pc): State
    requires t < |s.threads|
  {
    s.(threads := s.threads[t := pc])
  }

  function Step(s: State, t: nat, a: Action): State
    requires Enabled(s, t, a)
  {
    var pc := s.threads[t];
    match a
    case Begin(entry) => Goto(s, t, WantMu(entry))
    case Lock => Goto(s, t, InAssembler(pc.entry)).(mu := Some(t))
    // The handler, run inside the assembler call with `mu` held.
    case Handle =>
      s.(folded := s.folded + 1, pending := if s.streaming then s.pending + [s.folded] else s.pending)
    case TakePending => Goto(s, t, Took(pc.entry, s.pending)).(pending := [])
    case Unlock => Goto(s, t, Delivering(pc.entry, pc.recs)).(mu := None)
    case NextRecord => Goto(s, t, WantOut(pc.entry, pc.recs))
    case LockOut => Goto(s, t, Writing(pc.entry, pc.recs)).(out := Some(t))
    case Write => Goto(s, t, Delivering(pc.entry, pc.recs[1..])).(out := None, written := s.written + [pc.recs[0]])
    case EndDelivery => Goto(s, t, if pc.entry == Finish then WantMuAgain else Idle)
    case LockAgain => Goto(s, t, Summarising).(mu := Some(t))
    case Report => Goto(s, t, Finished).(mu := None)
  }

  /** A run: each element says which goroutine does what; a step that is not enabled cannot be taken. */
  ghost predicate Reaches(s0: State, run: seq<(nat, Action)>, s: State)
    decreases |run|
  {
    if run == [] then s == s0
    else Enabled(s0, run[0].0, run[0].1) && Reaches(Step(s0, run[0].0, run[0].1), run[1..], s)
  }

  function Start(n: nat, streaming: bool): State {
    State(seq(n, i => Idle), None, None, streaming, 0, [], [])
  }

  // ---------------------------------------------------------------- invariants

  /** `mu` is held exactly by the goroutine that is where it is held. */
  ghost predicate MuOwned(s: State) {
    && (forall t :: 0 <= t < |s.threads| ==> (HoldsMu(s.threads[t]) <==> s.mu == Some(t)))
    && (s.mu.Some? ==> s.mu.value < |s.threads|)
  }

  /** The output lock is held exactly by the goroutine that is writing, and a writer has something to write. */
  ghost predicate OutOwned(s: State) {
    && (forall t :: 0 <= t < |s.threads| ==> (HoldsOut(s.threads[t]) <==> s.out == Some(t)))
    && (s.out.Some? ==> s.out.value < |s.threads|)
    && (forall t :: 0 <= t < |s.threads| && (s.threads[t].WantOut? || s.threads[t].Writing?) ==>
          s.threads[t].recs != [])
  }

  ghost predicate Locked(s: State) {
    MuOwned(s) && OutOwned(s)
  }

  /** Only a goroutine inside the assembler can leave records pending. */
  ghost predicate PendingOwned(s: State) {
    s.pending != [] ==> s.mu.Some? && s.mu.value < |s.threads| && s.threads[s.mu.value].InAssembler?
  }

  /** How often record `r` occurs in a list. */
  function Times(recs: seq<Rec>, r: Rec): nat {
    multiset(recs)[r]
  }

  /** How often record `r` is in some goroutine's hand. */
  function InHands(ts: seq<Pc>, r: Rec): nat {
    if ts == [] then 0 else Times(InHand(ts[0]), r) + InHands(ts[1..], r)
  }

  /** A folded record is in exactly one place: written, pending, or in one goroutine's hand. Others are nowhere. */
  predicate OnePlace(s: State, r: Rec) {
    Times(s.written, r) + Times(s.pending, r) + InHands(s.threads, r) == if s.streaming && r < s.folded then 1 else 0
  }

  ghost predicate Conserved(s: State) {
    forall r: Rec :: OnePlace(s, r)
  }

  ghost predicate Inv(s: State) {
    Locked(s) && PendingOwned(s) && Conserved(s)
  }

  // ---------------------------------------------------------------- preservation

  lemma StepKeepsMu(s: State, t: nat, a: Action)
    requires MuOwned(s) && Enabled(s, t, a)
    ensures MuOwned(Step(s, t, a))
  {
  }

  lemma StepKeepsOut(s: State, t: nat, a: Action)
    requires OutOwned(s) && Enabled(s, t, a)
    ensures OutOwned(Step(s, t, a))
  {
  }

  lemma StepKeepsPending(s: State, t: nat, a: Action)
    requires Locked(s) && PendingOwned(s) && Enabled(s, t, a)
    ensures PendingOwned(Step(s, t, a))
  {
  }

  /** One goroutine moves: what all have in hand changes by what that one has. */
  lemma {:induction false} HandUpdate(ts: seq<Pc>, t: nat, pc: Pc, r: Rec)
    requires t < |ts|
    ensures InHands(ts[t := pc], r) + Times(InHand(ts[t]), r) == InHands(ts, r) + Times(InHand(pc), r)
    decreases |ts|
  {
    hide InHand, Times;
    if t == 0 {
      assert ts[t := pc][1..] == ts[1..];
    } else {
      assert ts[t := pc][1..] == ts[1..][t - 1 := pc];
      HandUpdate(ts[1..], t - 1, pc, r);
    }
  }

  lemma TimesSnoc(recs: seq<Rec>, x: Rec, r: Rec)
    ensures Times(recs + [x], r) == Times(recs, r) + (if r == x then 1 else 0)
  {
  }

  lemma TimesCons(recs: seq<Rec>, r: Rec)
    requires recs != []
    ensures Times(recs, r) == Times(recs[1..], r) + (if r == recs[0] then 1 else 0)
  {
    assert recs == [recs[0]] + recs[1..];
  }

  /** Steps that move a goroutine without changing its hand, `pending` or `written`. */
  lemma MoveKeepsOnePlace(s: State, t: nat, a: Action, r: Rec)
    requires OnePlace(s, r) && Enabled(s, t, a) && !a.Handle? && !a.TakePending? && !a.Write?
    ensures OnePlace(Step(s, t, a), r)
  {
    var s' := Step(s, t, a);
    HandUpdate(s.threads, t, s'.threads[t], r);
    assert s'.threads == s.threads[t := s'.threads[t]];
    assert InHand(s'.threads[t]) == InHand(s.threads[t]);
    hide InHands, InHand, Times;
  }

  lemma WriteKeepsOnePlace(s: State, t: nat, r: Rec)
    requires OnePlace(s, r) && Enabled(s, t, Write)
    ensures OnePlace(Step(s, t, Write), r)
  {
    var recs := s.threads[t].recs;
    HandUpdate(s.threads, t, Delivering(s.threads[t].entry, recs[1..]), r);
    TimesSnoc(s.written, recs[0], r);
    TimesCons(recs, r);
    hide InHands, Times;
  }

  lemma StepKeepsOnePlace(s: State, t: nat, a: Action, r: Rec)
    requires OnePlace(s, r) && Enabled(s, t, a)
    ensures OnePlace(Step(s, t, a), r)
  {
    hide InHands, Times;
    if a.Handle? {
      TimesSnoc(s.pending, s.folded, r);
    } else if a.Write? {
      WriteKeepsOnePlace(s, t, r);
    } else if a.TakePending? {
      HandUpdate(s.threads, t, Took(s.threads[t].entry, s.pending), r);
      TimesNone(r);
    } else {
      MoveKeepsOnePlace(s, t, a, r);
    }
  }

  lemma TimesNone(r: Rec)
    ensures Times([], r) == 0
  {
  }

  lemma StepKeepsConserved(s: State, t: nat, a: Action)
    requires Conserved(s) && Enabled(s, t, a)
    ensures Conserved(Step(s, t, a))
  {
    hide Step, OnePlace;
    forall r: Rec
      ensures OnePlace(Step(s, t, a), r)
    {
      StepKeepsOnePlace(s, t, a, r);
    }
  }

  lemma StepKeepsInv(s: State, t: nat, a: Action)
    requires Inv(s) && Enabled(s, t, a)
    ensures Inv(Step(s, t, a))
  {
    hide MuOwned, OutOwned, PendingOwned, Conserved, Enabled, Step;
    StepKeepsMu(s, t, a);
    StepKeepsOut(s, t, a);
    StepKeepsPending(s, t, a);
    StepKeepsConserved(s, t, a);
  }

  lemma {:induction false} EmptyHands(ts: seq<Pc>, r: Rec)
    requires forall t :: 0 <= t < |ts| ==> InHand(ts[t]) == []
    ensures InHands(ts, r) == 0
    decreases |ts|
  {
    if ts != [] {
      EmptyHands(ts[1..], r);
    }
  }

  lemma StartInv(n: nat, streaming: bool)
    ensures Inv(Start(n, streaming))
  {
    var s := Start(n, streaming);
    forall r: Rec
      ensures OnePlace(s, r)
    {
      EmptyHands(s.threads, r);
    }
  }

  lemma {:induction false} RunKeepsInv(s0: State, run: seq<(nat, Action)>, s: State)
    requires Inv(s0) && Reaches(s0, run, s)
    ensures Inv(s)
    decreases |run|
  {
    hide Inv, Step, Enabled;
    if run != [] {
      StepKeepsInv(s0, run[0].0, run[0].1);
      RunKeepsInv(Step(s0, run[0].0, run[0].1), run[1..], s);
    }
  }

  // ---------------------------------------------------------------- what follows, over every interleaving

  /** Whenever the assembler lock is free, nothing is pending. */
  lemma PendingEmptyWhenFree(n: nat, streaming: bool, run: seq<(nat, Action)>, s: State)
    requires Reaches(Start(n, streaming), run, s) && s.mu.None?
    ensures s.pending == []
  {
    StartInv(n, streaming);
    RunKeepsInv(Start(n, streaming), run, s);
  }

  /**
   * No goroutine ever holds one lock while it holds or waits for the other: `onRecord` is never called with `mu` held,
   * and so no cyclic wait is reachable.
   */
  lemma NoLockUnderLock(n: nat, streaming: bool, run: seq<(nat, Action)>, s: State, t: nat)
    requires Reaches(Start(n, streaming), run, s) && t < |s.threads|
    ensures !(s.mu == Some(t) && s.out == Some(t))
    ensures Waits(s.threads[t]) ==> s.mu != Some(t) && s.out != Some(t)
    ensures s.threads[t].Writing? ==> s.mu != Some(t)
  {
    StartInv(n, streaming);
    RunKeepsInv(Start(n, streaming), run, s);
  }

  /** The step a goroutine that waits for nothing can always take. */
  function OwnStep(pc: Pc): Action
    requires !pc.Idle? && !pc.Finished? && !Waits(pc)
  {
    match pc
    case InAssembler(_) => TakePending
    case Took(_, _) => Unlock
    case Delivering(_, recs) => if recs == [] then EndDelivery else NextRecord
    case Writing(_, _) => Write
    case Summarising => Report
  }

  /** The system never jams: as long as some goroutine is inside a call, some goroutine can take a step of its call. */
  lemma NeverStuck(n: nat, streaming: bool, run: seq<(nat, Action)>, s: State, t: nat) returns (u: nat, a: Action)
    requires Reaches(Start(n, streaming), run, s)
    requires t < |s.threads| && !s.threads[t].Idle? && !s.threads[t].Finished?
    ensures Enabled(s, u, a) && !a.Begin? && !a.Handle?
  {
    StartInv(n, streaming);
    RunKeepsInv(Start(n, streaming), run, s);
    var pc := s.threads[t];
    if !Waits(pc) {
      u, a := t, OwnStep(pc);
    } else if pc.WantOut? {
      if s.out.None? {
        u, a := t, LockOut;
      } else {
        u, a := s.out.value, Write;
      }
    } else if s.mu.None? {
      u, a := t, if pc.WantMu? then Lock else LockAgain;
    } else {
      u := s.mu.value;
      a := OwnStep(s.threads[u]);
    }
  }

  /** What is left to do of a call, new records aside. */
  function Remaining(pc: Pc): nat {
    match pc
    case Idle => 0
    case WantMu(_) => 8
    case InAssembler(_) => 7
    case Took(_, recs) => 6 + 3 * |recs|
    case Delivering(_, recs) => 5 + 3 * |recs|
    case WantOut(_, recs) => 4 + 3 * |recs|
    case Writing(_, recs) => 3 + 3 * |recs|
    case WantMuAgain => 2
    case Summarising => 1
    case Finished => 0
  }

  function Work(ts: seq<Pc>): nat {
    if ts == [] then 0 else Remaining(ts[0]) + Work(ts[1..])
  }

  lemma {:induction false} WorkUpdate(ts: seq<Pc>, t: nat, pc: Pc)
    requires t < |ts|
    ensures Work(ts[t := pc]) + Remaining(ts[t]) == Work(ts) + Remaining(pc)
    decreases |ts|
  {
    hide Remaining;
    if t == 0 {
      assert ts[t := pc][1..] == ts[1..];
    } else {
      assert ts[t := pc][1..] == ts[1..][t - 1 := pc];
      WorkUpdate(ts[1..], t - 1, pc);
    }
  }

  /** Everything still to do: the calls in progress, and three steps for each record not yet handed out. */
  function Left(s: State): nat {
    Work(s.threads) + 3 * |s.pending|
  }

  /** Without new calls and new records every step brings the pipeline closer to rest, so it always comes to rest. */
  lemma StepsRunOut(s: State, t: nat, a: Action)
    requires Enabled(s, t, a) && !a.Begin? && !a.Handle?
    ensures Left(Step(s, t, a)) < Left(s)
  {
    var s' := Step(s, t, a);
    WorkUpdate(s.threads, t, s'.threads[t]);
    assert s'.threads == s.threads[t := s'.threads[t]];
    StepShrinks(s, t, a);
    hide Work, Remaining, Step, Enabled;
  }

  lemma StepShrinks(s: State, t: nat, a: Action)
    requires Enabled(s, t, a) && !a.Begin? && !a.Handle?
    ensures var s' := Step(s, t, a);
            Remaining(s'.threads[t]) + 3 * |s'.pending| < Remaining(s.threads[t]) + 3 * |s.pending|
  {
  }

  // ---------------------------------------------------------------- exactly once

  predicate AtRest(pc: Pc) {
    pc.Idle? || pc.Finished?
  }

  /** `written` holds each of the first `n` records exactly once, and nothing else. */
  ghost predicate EachOnce(written: seq<Rec>, n: nat) {
    forall r: Rec :: Times(written, r) == if r < n then 1 else 0
  }

  /** With nothing pending and every hand empty, everything folded has been written. */
  lemma AllWritten(s: State)
    requires Conserved(s) && s.streaming && s.pending == []
    requires forall t :: 0 <= t < |s.threads| ==> InHand(s.threads[t]) == []
    ensures EachOnce(s.written, s.folded)
  {
    forall r: Rec
      ensures Times(s.written, r) == if r < s.folded then 1 else 0
    {
      assert OnePlace(s, r);
      EmptyHands(s.threads, r);
      TimesNone(r);
    }
  }

  /** When every goroutine is between calls, every folded record has been delivered exactly once. */
  lemma DeliveredExactlyOnce(n: nat, run: seq<(nat, Action)>, s: State)
    requires Reaches(Start(n, true), run, s) && forall t :: 0 <= t < |s.threads| ==> AtRest(s.threads[t])
    ensures EachOnce(s.written, s.folded)
  {
    StartInv(n, true);
    RunKeepsInv(Start(n, true), run, s);
    RunKeepsMode(Start(n, true), run, s);
    assert s.mu.None?;
    AllWritten(s);
  }

  /** `finish` builds its summary only after every folded record has been delivered, once the others have stopped. */
  lemma SummaryAfterDelivery(n: nat, run: seq<(nat, Action)>, s: State, f: nat)
    requires Reaches(Start(n, true), run, s) && f < |s.threads| && s.threads[f].Summarising?
    requires forall t :: 0 <= t < |s.threads| && t != f ==> AtRest(s.threads[t])
    ensures EachOnce(s.written, s.folded)
  {
    StartInv(n, true);
    RunKeepsInv(Start(n, true), run, s);
    RunKeepsMode(Start(n, true), run, s);
    assert s.mu == Some(f);
    AllWritten(s);
  }

  lemma {:induction false} RunKeepsMode(s0: State, run: seq<(nat, Action)>, s: State)
    requires Reaches(s0, run, s)
    ensures s.streaming == s0.streaming && |s.threads| == |s0.threads|
    decreases |run|
  {
    if run != [] {
      RunKeepsMode(Step(s0, run[0].0, run[0].1), run[1..], s);
    }
  }

  // ---------------------------------------------------------------- in order

  predicate Ascending(recs: seq<Rec>) {
    forall i, j :: 0 <= i < j < |recs| ==> recs[i] < recs[j]
  }

  /** The records added to the output by the steps of goroutine `t`. */
  ghost function OwnWrites(s0: State, run: seq<(nat, Action)>, t: nat): seq<Rec>
    decreases |run|
  {
    if run == [] || !Enabled(s0, run[0].0, run[0].1) then []
    else
      var s1 := Step(s0, run[0].0, run[0].1);
      (if run[0].0 == t && |s0.written| <= |s1.written| then s1.written[|s0.written|..] else [])
      + OwnWrites(s1, run[1..], t)
  }

  /** What goroutine `t` wrote, has in hand, and could take next. */
  function Line(s: State, t: nat, done: seq<Rec>): seq<Rec>
    requires t < |s.threads|
  {
    done + InHand(s.threads[t]) + s.pending
  }

  /** A line is in folding order. */
  ghost predicate InOrder(s: State, t: nat, done: seq<Rec>) {
    t < |s.threads| && Ascending(Line(s, t, done)) && forall r :: r in Line(s, t, done) ==> r < s.folded
  }

  /** What a step does to the output, to what is pending and to one goroutine's hand. */
  lemma StepMoves(s: State, u: nat, a: Action, t: nat)
    requires Enabled(s, u, a) && t < |s.threads|
    ensures var s' := Step(s, u, a);
            && |s'.threads| == |s.threads|
            && s'.folded == s.folded + (if a.Handle? then 1 else 0)
            && s'.pending == (if a.Handle? && s.streaming then s.pending + [s.folded]
                              else if a.TakePending? then [] else s.pending)
            && (u != t || !(a.TakePending? || a.Write?) ==> InHand(s'.threads[t]) == InHand(s.threads[t]))
            && (u == t && a.TakePending? ==> InHand(s.threads[t]) == [] && InHand(s'.threads[t]) == s.pending)
            && (if a.Write? then |s'.written| == |s.written| + 1 && s'.written[..|s.written|] == s.written
                else s'.written == s.written)
            && (u == t && a.Write? ==> InHand(s.threads[t]) == [s'.written[|s.written|]] + InHand(s'.threads[t]))
  {
  }

  /** A step moves records along the line, adds the newest at its end, or takes the end of it away. */
  lemma StepOfLine(s: State, u: nat, a: Action, t: nat, done: seq<Rec>)
    requires Enabled(s, u, a) && t < |s.threads|
    ensures var s' := Step(s, u, a);
            && |s'.threads| == |s.threads| && |s.written| <= |s'.written| && s'.folded >= s.folded
            && var line := Line(s, t, done);
               var line' := Line(s', t, done + if u == t then s'.written[|s.written|..] else []);
               || line' == line
               || (line' == line + [s.folded] && s'.folded == s.folded + 1)
               || line' == line[..|line| - |s.pending|]
  {
    hide Step, Enabled, InHand;
    StepMoves(s, u, a, t);
    var s' := Step(s, u, a);
    if u == t && a.Write? {
      assert s'.written[|s.written|..] == [s'.written[|s.written|]];
    } else {
      assert done + (if u == t then s'.written[|s.written|..] else []) == done;
    }
  }

  lemma PrefixInOrder(line: seq<Rec>, n: nat)
    requires Ascending(line) && n <= |line|
    ensures Ascending(line[..n]) && forall r :: r in line[..n] ==> r in line
  {
  }

  lemma SnocInOrder(line: seq<Rec>, x: Rec)
    requires Ascending(line) && forall r :: r in line ==> r < x
    ensures Ascending(line + [x]) && forall r :: r in line + [x] ==> r <= x
  {
    assert forall i :: 0 <= i < |line| ==> line[i] in line;
  }

  lemma StepKeepsOrder(s: State, u: nat, a: Action, t: nat, done: seq<Rec>)
    requires Enabled(s, u, a) && InOrder(s, t, done)
    ensures var s' := Step(s, u, a);
            && |s.written| <= |s'.written|
            && InOrder(s', t, done + if u == t then s'.written[|s.written|..] else [])
  {
    hide Step, Enabled, Ascending, InHand;
    StepOfLine(s, u, a, t, done);
    var s' := Step(s, u, a);
    var line, line' := Line(s, t, done), Line(s', t, done + if u == t then s'.written[|s.written|..] else []);
    hide Line;
    if line' == line + [s.folded] && s'.folded == s.folded + 1 {
      SnocInOrder(line, s.folded);
    } else if line' != line {
      PrefixInOrder(line, |line| - |s.pending|);
    }
    assert Ascending(line') && forall r :: r in line' ==> r < s'.folded;
  }

  lemma {:induction false} RunKeepsOrder(s0: State, run: seq<(nat, Action)>, s: State, t: nat, done: seq<Rec>)
    requires Reaches(s0, run, s) && InOrder(s0, t, done)
    ensures InOrder(s, t, done + OwnWrites(s0, run, t))
    decreases |run|
  {
    hide Step, Enabled, InOrder;
    if run == [] {
      assert done + [] == done;
    } else {
      var s1 := Step(s0, run[0].0, run[0].1);
      StepKeepsOrder(s0, run[0].0, run[0].1, t, done);
      var more := if run[0].0 == t then s1.written[|s0.written|..] else [];
      RunKeepsOrder(s1, run[1..], s, t, done + more);
      assert done + more + OwnWrites(s1, run[1..], t) == done + (more + OwnWrites(s1, run[1..], t));
    }
  }

  /** Every goroutine delivers in the order in which the records were folded into the accumulator. */
  lemma DeliveredInOrder(n: nat, streaming: bool, run: seq<(nat, Action)>, s: State, t: nat)
    requires Reaches(Start(n, streaming), run, s) && t < n
    ensures Ascending(OwnWrites(Start(n, streaming), run, t))
  {
    hide Reaches, OwnWrites;
    RunKeepsMode(Start(n, streaming), run, s);
    RunKeepsOrder(Start(n, streaming), run, s, t, []);
    var own := OwnWrites(Start(n, streaming), run, t);
    var line := [] + own + InHand(s.threads[t]) + s.pending;
    assert forall i :: 0 <= i < |own| ==> line[i] == own[i];
  }

  function FirstRecords(n: nat): seq<Rec> {
    seq(n, i => i)
  }

  lemma {:induction false} RunKeepsLine(s0: State, run: seq<(nat, Action)>, s: State)
    requires Reaches(s0, run, s) && |s0.threads| == 1 && s0.streaming
    requires s0.written + InHand(s0.threads[0]) + s0.pending == FirstRecords(s0.folded)
    ensures |s.threads| == 1 && s.written + InHand(s.threads[0]) + s.pending == FirstRecords(s.folded)
    decreases |run|
  {
    if run != [] {
      StepKeepsLine(s0, run[0].1);
      RunKeepsLine(Step(s0, run[0].0, run[0].1), run[1..], s);
      hide Step, Enabled, InHand;
    }
  }

  lemma StepKeepsLine(s: State, a: Action)
    requires |s.threads| == 1 && s.streaming && Enabled(s, 0, a)
    requires s.written + InHand(s.threads[0]) + s.pending == FirstRecords(s.folded)
    ensures var s' := Step(s, 0, a);
            && |s'.threads| == 1 && s'.streaming
            && s'.written + InHand(s'.threads[0]) + s'.pending == FirstRecords(s'.folded)
  {
    var s' := Step(s, 0, a);
    assert s'.written + InHand(s'.threads[0]) + s'.pending
           == if a.Handle? then FirstRecords(s.folded) + [s.folded] else FirstRecords(s.folded);
  }

  /** With a single goroutine, as when a capture file is read, the output is at every moment a prefix of the records. */
  lemma SingleInOrder(run: seq<(nat, Action)>, s: State)
    requires Reaches(Start(1, true), run, s)
    ensures s.written <= FirstRecords(s.folded)
    ensures |s.threads| == 1 && (AtRest(s.threads[0]) ==> s.written == FirstRecords(s.folded))
  {
    hide Reaches;
    RunKeepsLine(Start(1, true), run, s);
    if AtRest(s.threads[0]) {
      StartInv(1, true);
      RunKeepsInv(Start(1, true), run, s);
      assert s.pending == [];
    }
  }

  // ---------------------------------------------------------------- finish

  /** Inside `finish`, or done with it. */
  predicate InFinish(pc: Pc) {
    match pc
    case Idle => false
    case WantMuAgain => true
    case Summarising => true
    case Finished => true
    case _ => pc.entry == Finish
  }

  lemma StepInFinish(s: State, u: nat, a: Action, t: nat)
    requires Enabled(s, u, a) && t < |s.threads|
    ensures var s' := Step(s, u, a);
            && |s'.threads| == |s.threads|
            && (InFinish(s'.threads[t]) <==> InFinish(s.threads[t]) || (u == t && a == Begin(Finish)))
            && (s'.threads[t].Finished? <==> s.threads[t].Finished? || (u == t && a == Report))
  {
  }

  /** A goroutine that entered `finish` never does anything else, and is done exactly when it has reported. */
  lemma {:induction false} FinishIsLast(s0: State, run: seq<(nat, Action)>, s: State, t: nat)
    requires Reaches(s0, run, s) && t < |s0.threads|
    ensures |s.threads| == |s0.threads|
    ensures InFinish(s.threads[t]) <==> InFinish(s0.threads[t]) || (t, Begin(Finish)) in run
    ensures s.threads[t].Finished? <==> s0.threads[t].Finished? || (t, Report) in run
    decreases |run|
  {
    if run != [] {
      StepInFinish(s0, run[0].0, run[0].1, t);
      hide Step, Enabled, InFinish;
      FinishIsLast(Step(s0, run[0].0, run[0].1), run[1..], s, t);
      assert run == [run[0]] + run[1..];
    }
  }

  /**
   * Every call of `finish` reports: once its goroutine is at rest again, it has built its summary. That it comes to
   * rest is `NeverStuck` with `StepsRunOut`.
   */
  lemma FinishReports(n: nat, streaming: bool, run: seq<(nat, Action)>, s: State, t: nat)
    requires Reaches(Start(n, streaming), run, s) && t < |s.threads| && AtRest(s.threads[t])
    ensures (t, Begin(Finish)) in run <==> (t, Report) in run
  {
    RunKeepsMode(Start(n, streaming), run, s);
    FinishIsLast(Start(n, streaming), run, s, t);
  }
}
