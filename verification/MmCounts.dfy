/** The counts over whole runs: what is conserved, and when they are exact. */
module MmCounts {
  import opened Wrappers
  import opened PageWords
  import opened Mm
  import opened MmInvariant
  import opened MmSplit
  import opened MmFork
  import opened MmRelease
  import opened MmRuns
  import opened Counting

  /** Every count is exactly the number of references, plus one for a directory, a kernel
      table or a reserved frame. */
  ghost predicate Exact(s: State, R: Roles) {
    forall f: FrameNo :: Excess(s, R, {}, f) == 0
  }

  ghost predicate NoStale(s: State) {
    forall f: FrameNo :: f != 0 ==> Stale(s, f) == {}
  }

  lemma InjectiveSize(A: set<Owner>, B: set<FrameNo>)
    requires forall o :: o in A ==> o.a in B
    requires forall o, o' :: o in A && o' in A && o.a == o'.a ==> o == o'
    ensures |A| <= |B|
  {
    var f := map o | o in A :: o.a;
    InjectiveMapSize(f);
    assert f.Keys == A;
    SubsetSize(f.Values, B);
  }

  /** A frame has one place per address space, so its count is bounded by their number. */
  lemma ExactBound(s: State, R: Roles, f: FrameNo)
    requires Inv(s, R, {}, {}) && Exact(s, R)
    ensures s.refs[f] <= |s.spaces| && |OwnersOf(s, s.cur, f)| <= 1
  {
    var A := Owners(s, {}, f);
    forall o | o in A ensures o.a in s.spaces && R[f] == RoleOf(o) {
      InAll(s.spaces, o);
    }
    InjectiveSize(A, s.spaces);
    OwnersOfSubset(s, f);
    forall o | o in OwnersOf(s, s.cur, f) ensures o.a == s.cur {
      InAll({s.cur}, o);
    }
    InjectiveSize(OwnersOf(s, s.cur, f), {s.cur});
    assert Excess(s, R, {}, f) == 0;
    if Pin(R[f]) == 1 {
      assert A == {};
      assert |s.spaces| == |s.spaces - {s.cur}| + 1;
    }
  }

  /** With exact counts, nothing stale and at most 254 address spaces, no count can wrap. */
  lemma ExactNoWrap(s: State, R: Roles)
    requires Inv(s, R, {}, {}) && Exact(s, R) && NoStale(s) && |s.spaces| <= 254
    ensures NoWrap(s)
  {
    forall f: FrameNo | f != 0 ensures (if s.refs[f] == 0 then 1 else s.refs[f]) + |Holding(s, f)| < 256 {
      ExactBound(s, R, f);
      HoldingSplit(s, f);
    }
  }

  /** Steps under which counts stay exact: forks find nothing stale and few spaces. */
  ghost predicate Tidy(s: State, op: Op) {
    if op.Fork? then NoStale(s) && |s.spaces| <= 254 else Enabled(s, op)
  }

  ghost function TidyRun(s: State, ops: seq<Op>): Option<State>
    decreases |ops|
  {
    if ops == [] then Some(s)
    else if !Tidy(s, ops[0]) then None
    else
      var s1 :- Next(s, ops[0]);
      TidyRun(s1, ops[1..])
  }

  /** What the forks of a run did to the surplus of f: one more for each place that named f
      without being present, 256 less for each time its byte wrapped. */
  ghost function Drift(s: State, ops: seq<Op>, f: FrameNo): int
    requires Run(s, ops).Some?
    decreases |ops|
  {
    if ops == [] then 0
    else (if ops[0].Fork? then Shift(s, f) else 0) + Drift(Next(s, ops[0]).value, ops[1..], f)
  }

  /** The references of f that a run made or dropped beside those from user places: of new
      directories and kernel page tables, and of directories that were reaped. */
  ghost function Pinned(s: State, ops: seq<Op>, f: FrameNo): int
    requires Run(s, ops).Some?
    decreases |ops|
  {
    if ops == [] then 0
    else StepPins(s, ops[0], Next(s, ops[0]).value, f) + Pinned(Next(s, ops[0]).value, ops[1..], f)
  }

  /** Over every run each count changes by exactly the references that come and go, and by the
      drift: nothing else is ever gained or lost, for any frame, in use or not. */
  lemma {:induction false} RunSurplus(s: State, R: Roles, ops: seq<Op>) returns (R': Roles)
    requires Inv(s, R, {}, {}) && Run(s, ops).Some?
    ensures var s' := Run(s, ops).value;
      && Inv(s', R', {}, {})
      && (forall f: FrameNo :: Beyond(s', f) == Beyond(s, f) + Pinned(s, ops, f) + Drift(s, ops, f))
      && (forall f: FrameNo :: Pin(R'[f]) == Pin(R[f]) + Pinned(s, ops, f))
      && ReservedKept(s, R, s', R')
    decreases |ops|
  {
    hide Inv, Beyond, Shift, StepPins, StepExcess, Enabled;
    if ops == [] {
      R' := R;
    } else {
      var R1 := StepInv(s, R, ops[0]);
      var s1 := Next(s, ops[0]).value;
      R' := RunSurplus(s1, R1, ops[1..]);
      forall f: FrameNo
        ensures Beyond(Run(s, ops).value, f) == Beyond(s, f) + Pinned(s, ops, f) + Drift(s, ops, f)
        ensures Pin(R'[f]) == Pin(R[f]) + Pinned(s, ops, f)
      {
        assert Beyond(s1, f) == Beyond(s, f) + StepPins(s, ops[0], s1, f) + StepShift(s, ops[0], f);
      }
    }
  }

  /** Counts that are exact at first stay so for a frame in use, over any run, if and only if
      its drift is zero: its forks found no stale place that names it, or 256 of them for each
      time the count wrapped. The drift is never negative. */
  lemma CountsExactIff(s: State, R: Roles, ops: seq<Op>, o: Owner)
    requires Inv(s, R, {}, {}) && Exact(s, R) && Run(s, ops).Some?
    requires var s' := Run(s, ops).value; o.a in s'.spaces && Target(s', {}, o).Some?
    ensures var s' := Run(s, ops).value; var f := Target(s', {}, o).value;
      && s'.refs[f] == |Owners(s', {}, f)| + Drift(s, ops, f) && Drift(s, ops, f) >= 0
      && (s'.refs[f] == |Owners(s', {}, f)| <==> Drift(s, ops, f) == 0)
  {
    var R' := RunSurplus(s, R, ops);
    var s' := Run(s, ops).value;
    var f := Target(s', {}, o).value;
    PageCounted(s', R', {}, {}, o);
    assert Beyond(s', f) == Beyond(s, f) + Pinned(s, ops, f) + Drift(s, ops, f);
    assert Excess(s, R, {}, f) == 0 && Excess(s', R', {}, f) >= 0;
  }

  /** Over tidy runs no count ever wraps, and counts are exact at the end: each has changed by
      exactly the references that came and went. */
  lemma {:induction false} TidyRunExact(s: State, R: Roles, ops: seq<Op>) returns (R': Roles)
    requires Inv(s, R, {}, {}) && Exact(s, R) && TidyRun(s, ops).Some?
    ensures var s' := TidyRun(s, ops).value;
      && Run(s, ops) == Some(s') && Inv(s', R', {}, {}) && Exact(s', R')
      && forall f: FrameNo :: Beyond(s', f) == Beyond(s, f) + Pinned(s, ops, f)
    decreases |ops|
  {
    if ops == [] {
      R' := R;
    } else {
      if ops[0].Fork? {
        ExactNoWrap(s, R);
        NoWrapCovers(s);
      }
      var R1 := StepInv(s, R, ops[0]);
      assert Exact(Next(s, ops[0]).value, R1);
      R' := TidyRunExact(Next(s, ops[0]).value, R1, ops[1..]);
    }
  }
}
