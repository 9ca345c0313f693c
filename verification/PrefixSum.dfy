/** The parallel partial sum of concurrent/chapter8/parallel_partial_sum.cpp: blocks chained through promises,
    as a machine whose steps are element updates and promise operations, interleaved at will. */
module PrefixSum {
  import opened Options

  // ---- The split into blocks ----

  const MIN_PER_THREAD := 25

  function Min(a: nat, b: nat): nat { if a < b then a else b }

  function NumThreads(length: nat, hardware: nat): (n: nat)
    requires length > 0
    ensures 0 < n <= length
  {
    Min(if hardware != 0 then hardware else 2, (length + MIN_PER_THREAD - 1) / MIN_PER_THREAD)
  }

  /** The data, its length, and how it is split: `n` blocks, `size` elements in each but the last. */
  datatype Job<!T> = Job(add: (T, T) -> T, data: seq<T>, n: nat, size: nat)

  predicate Split<T>(job: Job<T>) {
    job.n > 0 && job.size > 0 && job.n * job.size <= |job.data|
  }

  function JobOf<T>(add: (T, T) -> T, data: seq<T>, hardware: nat): (job: Job<T>)
    requires |data| > 0
    ensures Split(job)
  {
    var n := NumThreads(|data|, hardware);
    BlocksFit(|data|, n);
    Job(add, data, n, |data| / n)
  }

  lemma BlocksFit(length: nat, n: nat)
    requires 0 < n <= length
    ensures length / n > 0 && n * (length / n) <= length
  {
    assert length == n * (length / n) + length % n;
  }

  function Lo<T>(job: Job<T>, i: nat): nat { i * job.size }

  function Hi<T>(job: Job<T>, i: nat): nat { if i + 1 == job.n then |job.data| else (i + 1) * job.size }

  lemma BlockInside<T>(job: Job<T>, i: nat)
    requires Split(job) && i < job.n
    ensures Lo(job, i) < Hi(job, i) <= |job.data|
    ensures i > 0 ==> Hi(job, i - 1) == Lo(job, i)
  {
    var rest := job.n - (i + 1);
    assert job.n * job.size == (i + 1) * job.size + rest * job.size;
    assert (i + 1) * job.size == i * job.size + job.size;
    assert rest * job.size >= 0;
  }

  lemma BlocksApart<T>(job: Job<T>, i: nat, k: nat)
    requires Split(job) && i < k < job.n
    ensures Hi(job, i) <= Lo(job, k)
  {
    var d := k - (i + 1);
    assert k * job.size == (i + 1) * job.size + d * job.size;
    assert d * job.size >= 0;
  }

  // ---- The machine ----

  type pos = x: nat | x > 0 witness 1

  /** Where a block stands. */
  datatype PC<T> =
    | Scan(sums: pos)              // partial_sum within the block, that many elements done
    | Get                          // wait for the previous end value
    | AddLast(addend: T)
    | SetEnd(addend: T)            // set the promise
    | AddRest(addend: T, k: nat)   // for_each over the others, k elements done
    | SetOnly                      // the first block sets its promise
    | Finished

  datatype State<T> = State(a: seq<T>, promises: seq<Option<T>>, pcs: seq<PC<T>>)

  function Init<T>(job: Job<T>): State<T> {
    State(job.data, seq(job.n, _ => None), seq(job.n, _ => Scan(1)))
  }

  /** One step of block `i`. None when a promise is set a second time. */
  function Step<T>(job: Job<T>, s: State<T>, i: nat): (r: Option<State<T>>)
    requires Split(job) && |s.a| == |job.data| && |s.promises| == |s.pcs| == job.n && i < job.n
    ensures r.Some? ==> |r.value.a| == |job.data| && |r.value.promises| == |r.value.pcs| == job.n
  {
    BlockInside(job, i);
    var lo, hi := Lo(job, i), Hi(job, i);
    var last := hi - 1;
    match s.pcs[i]
    case Scan(k) =>
      if lo + k < hi then
        Some(s.(a := s.a[lo + k := job.add(s.a[lo + k - 1], s.a[lo + k])], pcs := s.pcs[i := Scan(k + 1)]))
      else Some(s.(pcs := s.pcs[i := if i > 0 then Get else if i + 1 < job.n then SetOnly else Finished]))
    case Get =>
      if i == 0 || s.promises[i - 1] == None then Some(s)
      else Some(s.(pcs := s.pcs[i := AddLast(s.promises[i - 1].value)]))
    case AddLast(v) =>
      Some(s.(a := s.a[last := job.add(s.a[last], v)], pcs := s.pcs[i := if i + 1 < job.n then SetEnd(v) else AddRest(v, 0)]))
    case SetEnd(v) =>
      if s.promises[i].Some? then None
      else Some(s.(promises := s.promises[i := Option.Some(s.a[last])], pcs := s.pcs[i := AddRest(v, 0)]))
    case AddRest(v, k) =>
      if lo + k < last then
        Some(s.(a := s.a[lo + k := job.add(s.a[lo + k], v)], pcs := s.pcs[i := AddRest(v, k + 1)]))
      else Some(s.(pcs := s.pcs[i := Finished]))
    case SetOnly =>
      if s.promises[i].Some? then None
      else Some(s.(promises := s.promises[i := Option.Some(s.a[last])], pcs := s.pcs[i := Finished]))
    case Finished => Some(s)
  }

  // ---- What it computes ----

  /** The sum of data[i..j], from the left. */
  function Fold<T>(job: Job<T>, i: nat, j: nat): T
    requires i < j <= |job.data|
    decreases j
  {
    if j == i + 1 then job.data[i] else job.add(Fold(job, i, j - 1), job.data[j - 1])
  }

  /** What block `i` leaves at `j`: its own sum, to which the end value of the block before is added on the right. */
  function Outcome<T>(job: Job<T>, i: nat, j: nat): T
    requires Split(job) && i < job.n && Lo(job, i) <= j < |job.data|
    decreases i
  {
    var own := Fold(job, Lo(job, i), j + 1);
    if i == 0 then own
    else
      BlockInside(job, i - 1);
      job.add(own, Outcome(job, i - 1, Hi(job, i - 1) - 1))
  }

  ghost predicate BlockOk<T(!new)>(job: Job<T>, s: State<T>, i: nat)
    requires Split(job) && i < job.n == |s.pcs| && |s.a| == |job.data|
  {
    BlockInside(job, i);
    var lo, hi, pc := Lo(job, i), Hi(job, i), s.pcs[i];
    && (pc.Scan? ==> pc.sums <= hi - lo)
    && (pc.Get? ==> i > 0)
    && (pc.SetOnly? ==> i == 0 && i + 1 < job.n)
    && (pc.SetEnd? ==> i + 1 < job.n)
    && (pc.AddLast? || pc.SetEnd? || pc.AddRest? ==> i > 0 && pc.addend == (BlockInside(job, i - 1); Outcome(job, i - 1, Hi(job, i - 1) - 1)))
    && forall j | lo <= j < hi :: s.a[j] == Expected(job, pc, i, j)
  }

  /** The element at `j` of block `i`: as given, the sum within the block, or the outcome. */
  ghost function Expected<T(!new)>(job: Job<T>, pc: PC<T>, i: nat, j: nat): T
    requires Split(job) && i < job.n && Lo(job, i) <= j < Hi(job, i)
  {
    BlockInside(job, i);
    var lo, hi := Lo(job, i), Hi(job, i);
    if pc.Scan? && j >= lo + pc.sums then job.data[j]
    else if pc.Scan? || pc.Get? || pc.AddLast? || (pc.SetEnd? && j < hi - 1)
            || (pc.AddRest? && lo + pc.k <= j < hi - 1) then Fold(job, lo, j + 1)
    else Outcome(job, i, j)
  }

  ghost predicate PromiseOk<T(!new)>(job: Job<T>, s: State<T>, i: nat)
    requires Split(job) && i < job.n == |s.pcs| == |s.promises|
  {
    BlockInside(job, i);
    var pc := s.pcs[i];
    if pc.AddRest? || pc.Finished? then
      i + 1 < job.n ==> s.promises[i] == Option.Some(Outcome(job, i, Hi(job, i) - 1))
    else s.promises[i] == None
  }

  ghost predicate Inv<T(!new)>(job: Job<T>, s: State<T>) {
    && Split(job) && |s.a| == |job.data| && |s.promises| == |s.pcs| == job.n
    && forall i | 0 <= i < job.n :: BlockOk(job, s, i) && PromiseOk(job, s, i)
  }

  lemma {:induction false} OtherBlock<T(!new)>(job: Job<T>, s: State<T>, s': State<T>, i: nat, k: nat)
    requires Inv(job, s) && i < job.n && k < job.n && i != k
    requires |s'.a| == |s.a| && |s'.promises| == |s'.pcs| == job.n && s'.pcs[k] == s.pcs[k] && s'.promises[k] == s.promises[k]
    requires forall j | 0 <= j < |s.a| && (j < Lo(job, i) || j >= Hi(job, i)) :: s'.a[j] == s.a[j]
    ensures BlockOk(job, s', k) && PromiseOk(job, s', k)
  {
    hide Outcome, Fold;
    assert BlockOk(job, s, k) && PromiseOk(job, s, k);
    hide Lo, Hi;
    BlockInside(job, k);
    if i < k {
      BlocksApart(job, i, k);
    } else {
      BlocksApart(job, k, i);
    }
  }

  lemma {:induction false} OwnElement<T(!new)>(job: Job<T>, s: State<T>, i: nat, j: nat)
    requires Inv(job, s) && i < job.n && Lo(job, i) <= j < Hi(job, i) && Step(job, s, i).Some?
    ensures Hi(job, i) <= |job.data|
    ensures Step(job, s, i).value.a[j] == Expected(job, Step(job, s, i).value.pcs[i], i, j)
  {
    BlockInside(job, i);
    assert BlockOk(job, s, i);
    var lo := Lo(job, i);
    assert s.a[j] == Expected(job, s.pcs[i], i, j);
    if s.pcs[i].Scan? && j == lo + s.pcs[i].sums {
      assert s.a[j - 1] == Expected(job, s.pcs[i], i, j - 1);
    }
    if s.pcs[i].Get? && i > 0 {
      BlockInside(job, i - 1);
    }
    hide Lo, Hi;
  }

  lemma {:induction false} OwnBlock<T(!new)>(job: Job<T>, s: State<T>, i: nat)
    requires Inv(job, s) && i < job.n
    ensures Step(job, s, i).Some?
    ensures BlockOk(job, Step(job, s, i).value, i) && PromiseOk(job, Step(job, s, i).value, i)
  {
    BlockInside(job, i);
    assert BlockOk(job, s, i) && PromiseOk(job, s, i);
    if i > 0 {
      BlockInside(job, i - 1);
      assert PromiseOk(job, s, i - 1);
    }
    var s' := Step(job, s, i).value;
    forall j | Lo(job, i) <= j < Hi(job, i)
      ensures s'.a[j] == Expected(job, s'.pcs[i], i, j)
    {
      OwnElement(job, s, i, j);
    }
    assert Expected(job, s.pcs[i], i, Hi(job, i) - 1) == s.a[Hi(job, i) - 1];
    hide Lo, Hi, Fold;
  }

  lemma {:induction false} StepKeeps<T(!new)>(job: Job<T>, s: State<T>, i: nat)
    requires Inv(job, s) && i < job.n
    ensures Step(job, s, i).Some? && Inv(job, Step(job, s, i).value)
  {
    OwnBlock(job, s, i);
    BlockInside(job, i);
    var s' := Step(job, s, i).value;
    hide Lo, Hi, BlockOk, PromiseOk;
    forall k | 0 <= k < job.n
      ensures BlockOk(job, s', k) && PromiseOk(job, s', k)
    {
      if k != i {
        OtherBlock(job, s, s', i, k);
      }
    }
  }

  lemma {:induction false} InitOk<T(!new)>(job: Job<T>)
    requires Split(job)
    ensures Inv(job, Init(job))
  {
    forall i | 0 <= i < job.n
      ensures BlockOk(job, Init(job), i) && PromiseOk(job, Init(job), i)
    {
      BlockInside(job, i);
      hide Lo, Hi;
    }
  }

  // ---- Whole runs ----

  function Run<T>(job: Job<T>, s: State<T>, schedule: seq<nat>): (r: Option<State<T>>)
    requires Split(job) && |s.a| == |job.data| && |s.promises| == |s.pcs| == job.n
    ensures r.Some? ==> |r.value.a| == |job.data| && |r.value.promises| == |r.value.pcs| == job.n
    decreases |schedule|
  {
    if schedule == [] then Some(s)
    else if schedule[0] >= job.n then Run(job, s, schedule[1..])
    else
      match Step(job, s, schedule[0])
      case None => None
      case Some(s') => Run(job, s', schedule[1..])
  }

  predicate Done<T>(s: State<T>) {
    forall i | 0 <= i < |s.pcs| :: s.pcs[i].Finished?
  }

  /** The block that a position belongs to. */
  function BlockAt<T>(job: Job<T>, j: nat): (i: nat)
    requires Split(job) && j < |job.data|
    ensures i < job.n
  {
    Min(j / job.size, job.n - 1)
  }

  lemma BlockAtHas<T>(job: Job<T>, j: nat)
    requires Split(job) && j < |job.data|
    ensures Lo(job, BlockAt(job, j)) <= j < Hi(job, BlockAt(job, j))
  {
    var q, r := j / job.size, j % job.size;
    assert j == q * job.size + r;
    if q >= job.n {
      var d := q - (job.n - 1);
      assert q * job.size == (job.n - 1) * job.size + d * job.size;
      assert d * job.size >= 0;
    } else {
      assert (q + 1) * job.size == q * job.size + job.size;
    }
  }

  /** What any complete run leaves. */
  function Result<T>(job: Job<T>): seq<T>
    requires Split(job)
  {
    seq(|job.data|, j requires 0 <= j < |job.data| => BlockAtHas(job, j); Outcome(job, BlockAt(job, j), j))
  }

  lemma {:induction false} RunFrom<T(!new)>(job: Job<T>, s: State<T>, schedule: seq<nat>)
    requires Inv(job, s)
    ensures Run(job, s, schedule).Some? && Inv(job, Run(job, s, schedule).value)
    decreases |schedule|
  {
    hide BlockOk, PromiseOk, Step;
    if schedule != [] {
      if schedule[0] < job.n {
        StepKeeps(job, s, schedule[0]);
        RunFrom(job, Step(job, s, schedule[0]).value, schedule[1..]);
      } else {
        RunFrom(job, s, schedule[1..]);
      }
    }
  }

  /** Whatever the schedule: no promise is set twice, and when all blocks have finished the result is the same. */
  lemma {:induction false} AnySchedule<T(!new)>(job: Job<T>, schedule: seq<nat>)
    requires Split(job)
    ensures Run(job, Init(job), schedule).Some?
    ensures var s := Run(job, Init(job), schedule).value; Done(s) ==> s.a == Result(job)
  {
    InitOk(job);
    RunFrom(job, Init(job), schedule);
    var s := Run(job, Init(job), schedule).value;
    if Done(s) {
      forall j | 0 <= j < |s.a|
        ensures s.a[j] == Result(job)[j]
      {
        BlockAtHas(job, j);
        assert BlockOk(job, s, BlockAt(job, j));
      }
    }
  }

  predicate Waits<T>(s: State<T>, i: nat)
    requires i < |s.pcs| == |s.promises|
  {
    s.pcs[i].Get? && i > 0 && s.promises[i - 1] == None
  }

  /** Until all blocks have finished, one of them can move. */
  lemma {:induction false} Progress<T(!new)>(job: Job<T>, s: State<T>, i: nat) returns (k: nat)
    requires Inv(job, s) && i < job.n && !s.pcs[i].Finished?
    ensures k < job.n && !s.pcs[k].Finished? && !Waits(s, k)
  {
    k := i;
    while Waits(s, k)
      invariant k < job.n && !s.pcs[k].Finished?
      decreases k
    {
      assert PromiseOk(job, s, k - 1);
      k := k - 1;
    }
  }

  function Minus(a: nat, b: nat): nat { if a < b then 0 else a - b }

  function Size<T>(job: Job<T>, i: nat): nat
    requires Split(job) && i < job.n
  {
    BlockInside(job, i);
    Hi(job, i) - Lo(job, i)
  }

  /** The steps that a block with `len` elements still makes, not counting those in which it waits. */
  function StepsLeft<T>(pc: PC<T>, len: nat): nat {
    match pc
    case Scan(k) => Minus(len, k) + len + 6
    case Get => len + 4
    case AddLast(_) => len + 3
    case SetEnd(_) => len + 2
    case AddRest(_, k) => Minus(len, k) + 1
    case SetOnly => 1
    case Finished => 0
  }

  /** The steps left of the first `n` blocks. */
  function Total<T>(job: Job<T>, s: State<T>, n: nat): nat
    requires Split(job) && n <= |s.pcs| == job.n
  {
    if n == 0 then 0 else Total(job, s, n - 1) + StepsLeft(s.pcs[n - 1], Size(job, n - 1))
  }

  lemma {:induction false} TotalMoves<T>(job: Job<T>, s: State<T>, s': State<T>, i: nat, n: nat)
    requires Split(job) && n <= |s.pcs| == |s'.pcs| == job.n && i < job.n
    requires forall k | 0 <= k < job.n && k != i :: s'.pcs[k] == s.pcs[k]
    ensures var len := Size(job, i);
      Total(job, s', n) == if i < n then Total(job, s, n) - StepsLeft(s.pcs[i], len) + StepsLeft(s'.pcs[i], len) else Total(job, s, n)
  {
    if n > 0 {
      TotalMoves(job, s, s', i, n - 1);
    }
  }

  /** Every step counts: a block that does not wait has less to do after it. */
  lemma {:induction false} StepCounts<T(!new)>(job: Job<T>, s: State<T>, i: nat)
    requires Inv(job, s) && i < job.n && !s.pcs[i].Finished? && !Waits(s, i) && Step(job, s, i).Some?
    ensures Total(job, Step(job, s, i).value, job.n) < Total(job, s, job.n)
  {
    hide BlockOk, PromiseOk, Lo, Hi, Total;
    BlockInside(job, i);
    var s' := Step(job, s, i).value;
    BlockKnows(job, s, i);
    TotalMoves(job, s, s', i, job.n);
  }

  lemma BlockKnows<T(!new)>(job: Job<T>, s: State<T>, i: nat)
    requires Inv(job, s) && i < job.n
    ensures s.pcs[i].Get? ==> i > 0
  {
    assert BlockOk(job, s, i);
  }

  /** From every point of a run there is a way to the end, and it has no more steps than are left. */
  lemma {:induction false} CanFinish<T(!new)>(job: Job<T>, s: State<T>) returns (schedule: seq<nat>)
    requires Inv(job, s)
    ensures Run(job, s, schedule).Some? && Done(Run(job, s, schedule).value) && |schedule| <= Total(job, s, job.n)
    decreases Total(job, s, job.n)
  {
    hide BlockOk, PromiseOk, Step, Total;
    if i :| 0 <= i < job.n && !s.pcs[i].Finished? {
      var k := Progress(job, s, i);
      StepKeeps(job, s, k);
      StepCounts(job, s, k);
      var rest := CanFinish(job, Step(job, s, k).value);
      schedule := [k] + rest;
      assert schedule[1..] == rest;
    } else {
      schedule := [];
    }
  }

  // ---- When this is the partial sum ----

  ghost predicate Associative<T(!new)>(add: (T, T) -> T) {
    forall a, b, c :: add(add(a, b), c) == add(a, add(b, c))
  }

  ghost predicate Commutative<T(!new)>(add: (T, T) -> T) {
    forall a, b :: add(a, b) == add(b, a)
  }

  ghost predicate Identity<T(!new)>(add: (T, T) -> T, e: T) {
    forall a :: add(a, e) == a && add(e, a) == a
  }

  /** std::partial_sum */
  function PartialSums<T>(job: Job<T>): seq<T> {
    seq(|job.data|, j requires 0 <= j < |job.data| => Fold(job, 0, j + 1))
  }

  lemma {:induction false} FoldSplit<T(!new)>(job: Job<T>, i: nat, m: nat, j: nat)
    requires Associative(job.add) && i < m < j <= |job.data|
    ensures Fold(job, i, j) == job.add(Fold(job, i, m), Fold(job, m, j))
    decreases j
  {
    if j > m + 1 {
      FoldSplit(job, i, m, j - 1);
    }
  }

  lemma {:induction false} OutcomeIsSum<T(!new)>(job: Job<T>, i: nat, j: nat)
    requires Split(job) && Associative(job.add) && Commutative(job.add) && i < job.n && Lo(job, i) <= j < |job.data|
    ensures Outcome(job, i, j) == Fold(job, 0, j + 1)
    decreases i
  {
    BlockInside(job, i);
    if i > 0 {
      BlockInside(job, i - 1);
      var lo := Lo(job, i);
      OutcomeIsSum(job, i - 1, lo - 1);
      FoldSplit(job, 0, lo, j + 1);
    } else {
      assert Lo(job, 0) == 0;
    }
  }

  lemma {:induction false} ResultIsSums<T(!new)>(job: Job<T>)
    requires Split(job) && Associative(job.add) && Commutative(job.add)
    ensures Result(job) == PartialSums(job)
  {
    forall j | 0 <= j < |job.data|
      ensures Result(job)[j] == PartialSums(job)[j]
    {
      BlockAtHas(job, j);
      OutcomeIsSum(job, BlockAt(job, j), j);
    }
  }

  /** Two blocks of 25: `x` in front, `y` first in the second block, and nothing else. */
  function TwoBlocks<T>(x: T, y: T, e: T): (data: seq<T>)
    ensures |data| == 50
  {
    seq(50, j => if j == 0 then x else if j == 25 then y else e)
  }

  lemma {:induction false} FoldOfNothing<T(!new)>(job: Job<T>, x: T, y: T, e: T, j: nat)
    requires job.data == TwoBlocks(x, y, e) && Identity(job.add, e) && 0 < j <= 25
    ensures Fold(job, 0, j) == x
  {
    if j > 1 {
      FoldOfNothing(job, x, y, e, j - 1);
    }
  }

  lemma {:induction false} BlocksSwapped<T(!new)>(add: (T, T) -> T, x: T, y: T, e: T)
    requires Identity(add, e)
    ensures var job := JobOf(add, TwoBlocks(x, y, e), 0);
      PartialSums(job)[25] == add(x, y) && Result(job)[25] == add(y, x)
  {
    var job := JobOf(add, TwoBlocks(x, y, e), 0);
    assert job.n == 2 && job.size == 25;
    FoldOfNothing(job, x, y, e, 25);
    assert Fold(job, 0, 26) == add(Fold(job, 0, 25), y);
    assert BlockAt(job, 25) == 1 && Lo(job, 1) == 25 && Lo(job, 0) == 0 && Hi(job, 0) == 25;
    assert Fold(job, 25, 26) == y;
    assert Outcome(job, 0, 24) == Fold(job, 0, 25);
    assert Outcome(job, 1, 25) == add(y, Outcome(job, 0, 24));
  }

  /** With an identity, the parallel result is the partial sum of every input exactly when the operation commutes:
      the code adds the end value of the block before on the right. */
  lemma {:induction false} CorrectIffCommutative<T(!new)>(add: (T, T) -> T, e: T)
    requires Associative(add) && Identity(add, e)
    ensures Commutative(add) <==>
      forall data: seq<T>, hardware: nat | |data| > 0 :: Result(JobOf(add, data, hardware)) == PartialSums(JobOf(add, data, hardware))
  {
    if Commutative(add) {
      forall data: seq<T>, hardware: nat | |data| > 0
        ensures Result(JobOf(add, data, hardware)) == PartialSums(JobOf(add, data, hardware))
      {
        ResultIsSums(JobOf(add, data, hardware));
      }
    } else {
      var x, y :| add(x, y) != add(y, x);
      BlocksSwapped(add, x, y, e);
      var data := TwoBlocks(x, y, e);
      assert Result(JobOf(add, data, 0)) != PartialSums(JobOf(add, data, 0));
    }
  }
}
