/**
 * The run-wide tallies of cornelius/src/global_data.rs: how each
 * saturation run stopped, and how many subjects files, subjects, mutants
 * and equivalences were seen.  Every counter is a `u32`; an increment that
 * would leave its range is an overflow panic in a debug build, which the
 * operations exclude by precondition.
 */
module GlobalData {
  import opened Wrappers

  /** `u32::MAX`. */
  const U32Max: nat := 0xFFFF_FFFF

  type u32 = n: nat | n <= U32Max

  /** Why the e-graph runner stopped; the payloads do not matter here. */
  datatype StopReason = Saturated | IterationLimit(iterations: nat) | TimeLimit | NodeLimit(nodes: nat) | Other(message: string)

  /** The five kinds of stop reason, one counter each. */
  datatype StopKind = KSaturated | KIterationLimit | KTimeLimit | KNodeLimit | KOther

  function KindOf(r: StopReason): StopKind {
    match r
    case Saturated => KSaturated
    case IterationLimit(_) => KIterationLimit
    case TimeLimit => KTimeLimit
    case NodeLimit(_) => KNodeLimit
    case Other(_) => KOther
  }

  datatype Data = Data(
    iterLimits: u32,
    timeLimits: u32,
    nodeLimits: u32,
    saturations: u32,
    others: u32,
    numSubjects: u32,
    numSubjectsFiles: u32,
    numMutants: u32,
    discoveredEquivalences: u32)

  /** The counter that records stop reasons of kind `k`. */
  function Stops(d: Data, k: StopKind): u32 {
    match k
    case KSaturated => d.saturations
    case KIterationLimit => d.iterLimits
    case KTimeLimit => d.timeLimits
    case KNodeLimit => d.nodeLimits
    case KOther => d.others
  }

  /** All stop reasons recorded so far. */
  function TotalStops(d: Data): nat {
    d.iterLimits + d.timeLimits + d.nodeLimits + d.saturations + d.others
  }

  /** The fields that are not stop-reason counters. */
  function Totals(d: Data): (nat, nat, nat, nat) {
    (d.numSubjects, d.numSubjectsFiles, d.numMutants, d.discoveredEquivalences)
  }

  /** The counter for `r` still has room for one more. */
  predicate CanRecord(d: Data, r: Option<StopReason>) {
    r.Some? ==> Stops(d, KindOf(r.value)) < U32Max
  }

  /** `handle_stop_reason`: count `Some(r)` under r's kind; `None` changes nothing. */
  function HandleStopReason(d: Data, r: Option<StopReason>): (e: Data)
    requires CanRecord(d, r)
    ensures r.None? ==> e == d
    ensures r.Some? ==> Stops(e, KindOf(r.value)) == Stops(d, KindOf(r.value)) + 1
    ensures forall k :: (r.None? || k != KindOf(r.value)) ==> Stops(e, k) == Stops(d, k)
    ensures Totals(e) == Totals(d)
    ensures TotalStops(e) == TotalStops(d) + (if r.Some? then 1 else 0)
  {
    match r
    case None => d
    case Some(reason) =>
      match reason
      case Saturated => d.(saturations := d.saturations + 1)
      case IterationLimit(_) => d.(iterLimits := d.iterLimits + 1)
      case TimeLimit => d.(timeLimits := d.timeLimits + 1)
      case NodeLimit(_) => d.(nodeLimits := d.nodeLimits + 1)
      case Other(_) => d.(others := d.others + 1)
  }

  /** `add_discovered_equivalences`. */
  function AddDiscoveredEquivalences(d: Data, n: u32): (e: Data)
    requires d.discoveredEquivalences + n <= U32Max
    ensures e == d.(discoveredEquivalences := e.discoveredEquivalences)
    ensures e.discoveredEquivalences - d.discoveredEquivalences == n
  {
    d.(discoveredEquivalences := d.discoveredEquivalences + n)
  }

  /** `add_subjects`. */
  function AddSubjects(d: Data, n: u32): (e: Data)
    requires d.numSubjects + n <= U32Max
    ensures e == d.(numSubjects := e.numSubjects)
    ensures e.numSubjects - d.numSubjects == n
  {
    d.(numSubjects := d.numSubjects + n)
  }

  /** `inc_subjects_files`. */
  function IncSubjectsFiles(d: Data): (e: Data)
    requires d.numSubjectsFiles < U32Max
    ensures e == d.(numSubjectsFiles := e.numSubjectsFiles)
    ensures e.numSubjectsFiles - d.numSubjectsFiles == 1
  {
    d.(numSubjectsFiles := d.numSubjectsFiles + 1)
  }

  /** `add_mutants`. */
  function AddMutants(d: Data, n: u32): (e: Data)
    requires d.numMutants + n <= U32Max
    ensures e == d.(numMutants := e.numMutants)
    ensures e.numMutants - d.numMutants == n
  {
    d.(numMutants := d.numMutants + n)
  }

  /** `GlobalData::default()`. */
  function Initial(): Data {
    Data(0, 0, 0, 0, 0, 0, 0, 0, 0)
  }

  /** How many of `rs` are stop reasons of kind `k`. */
  function Occurrences(rs: seq<Option<StopReason>>, k: StopKind): nat {
    if rs == [] then 0
    else Occurrences(rs[..|rs| - 1], k) + (if rs[|rs| - 1].Some? && KindOf(rs[|rs| - 1].value) == k then 1 else 0)
  }

  /** How many of `rs` are `Some`. */
  function Somes(rs: seq<Option<StopReason>>): nat {
    if rs == [] then 0 else Somes(rs[..|rs| - 1]) + (if rs[|rs| - 1].Some? then 1 else 0)
  }

  /** The tally after recording every element of `rs` in order, while no counter overflows. */
  function HandleAll(d: Data, rs: seq<Option<StopReason>>): Option<Data> {
    if rs == [] then Some(d)
    else
      var prev := HandleAll(d, rs[..|rs| - 1]);
      if prev.Some? && CanRecord(prev.value, rs[|rs| - 1]) then Some(HandleStopReason(prev.value, rs[|rs| - 1]))
      else None
  }

  /**
   * Starting from the default, each counter holds the number of stop
   * reasons of its kind, their sum is the number of `Some` calls, and the
   * other fields stay 0.  Recording never overflows while fewer than
   * 2^32 - 1 reasons of any one kind have been seen.
   */
  lemma {:induction false} TallyCounts(rs: seq<Option<StopReason>>)
    ensures (forall k :: Occurrences(rs, k) <= U32Max) <==> HandleAll(Initial(), rs).Some?
    ensures HandleAll(Initial(), rs).Some? ==>
      var d := HandleAll(Initial(), rs).value;
      (forall k :: Stops(d, k) == Occurrences(rs, k)) && TotalStops(d) == Somes(rs) && Totals(d) == (0, 0, 0, 0)
  {
    if rs != [] {
      var init, last := rs[..|rs| - 1], rs[|rs| - 1];
      TallyCounts(init);
      assert forall k :: Occurrences(rs, k) == Occurrences(init, k) + (if last.Some? && KindOf(last.value) == k then 1 else 0);
      if (forall k :: Occurrences(init, k) <= U32Max) && last.Some? && Occurrences(init, KindOf(last.value)) == U32Max {
        assert Occurrences(rs, KindOf(last.value)) > U32Max;
      }
      if (exists k :: Occurrences(init, k) > U32Max) {
        var k :| Occurrences(init, k) > U32Max;
        assert Occurrences(rs, k) > U32Max;
      }
    }
  }
}
