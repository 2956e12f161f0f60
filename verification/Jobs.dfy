/** Background jobs (src/jobs.rs): a log that is tailed while it grows, and a
    registry that forgets the oldest finished job once it holds more than fifty. */
module Jobs {
  import opened Base
  import opened Texts
  import opened Sorting

  datatype Status = Running | Done | Failed

  // ----- Tailing a log ---------------------------------------------------------------

  function Tail(log: seq<string>, from: nat): seq<string>
  {
    if from <= |log| then log[from..] else []
  }

  class JobState {
    var log: seq<string>
    var status: Status

    constructor ()
      ensures log == [] && status == Running
    {
      log, status := [], Running;
    }

    method Line(text: string)
      modifies this
      ensures log == old(log) + [text] && status == old(status)
    {
      log := log + [text];
    }

    method Finish(s: Status)
      modifies this
      ensures status == s && log == old(log)
    {
      status := s;
    }

    /** `since`: the lines from an index on, and the status beside them. */
    method Since(from: nat) returns (tail: seq<string>, s: Status)
      ensures tail == Tail(log, from) && s == status
    {
      tail := if from <= |log| then log[from..] else [];
      s := status;
    }
  }

  /** A job and someone tailing it; the tailer stops at the first status that is not
      `Running`. */
  datatype Watch = Watch(log: seq<string>, status: Status, got: seq<string>, sent: nat, over: Option<Status>)

  const UNWATCHED := Watch([], Running, [], 0, None)

  datatype Act = Line(text: string) | Finish(to: Status) | Read

  /** A job writes its lines, then finishes once; the tailer reads when it likes. */
  function Do(w: Watch, a: Act): Option<Watch>
  {
    match a
    case Line(text) => if w.status == Running then Some(w.(log := w.log + [text])) else None
    case Finish(to) => if w.status == Running && to != Running then Some(w.(status := to)) else None
    case Read =>
      if w.over.Some? then None
      else
        var tail := Tail(w.log, w.sent);
        var over := if w.status == Running then None else Some(w.status);
        Some(w.(got := w.got + tail, sent := w.sent + |tail|, over := over))
  }

  function DoAll(w: Watch, acts: seq<Act>): Option<Watch>
    decreases |acts|
  {
    if acts == [] then Some(w) else match Do(w, acts[0]) case None => None case Some(v) => DoAll(v, acts[1..])
  }

  predicate WatchGood(w: Watch)
  {
    && w.sent == |w.got| <= |w.log| && w.got == w.log[..|w.got|]
    && (w.over.Some? ==> w.over == Some(w.status) && w.status != Running && w.got == w.log)
  }

  lemma {:induction false} WatchKept(w: Watch, acts: seq<Act>)
    requires WatchGood(w) && DoAll(w, acts).Some?
    ensures WatchGood(DoAll(w, acts).value)
    decreases |acts|
  {
    if acts != [] {
      WatchKept(Do(w, acts[0]).value, acts[1..]);
    }
  }

  /** Whatever the timing, a tailer has a prefix of the log, nothing twice and nothing
      skipped, and the whole of it once it has seen the job finish. */
  lemma TailerMissesNothing(acts: seq<Act>)
    requires DoAll(UNWATCHED, acts).Some?
    ensures var w := DoAll(UNWATCHED, acts).value;
            && |w.got| <= |w.log| && w.got == w.log[..|w.got|]
            && (w.over.Some? ==> w.got == w.log && w.over == Some(w.status))
  {
    WatchKept(UNWATCHED, acts);
  }

  // ----- Job ids ---------------------------------------------------------------------------

  function Zeros(n: nat): string
  {
    if n == 0 then "" else Zeros(n - 1) + "0"
  }

  /** `{:0width}`: at least so many characters, never fewer than the number has. */
  function Padded(s: string, width: nat): string
  {
    if |s| >= width then s else Zeros(width - |s|) + s
  }

  /** `format!("{ms:013x}-{n:08}")`. */
  function JobId(ms: nat, n: nat): string
  {
    Padded(Numeral(ms, 16), 13) + "-" + Padded(Decimal(n), 8)
  }

  function Power(base: nat, w: nat): nat
  {
    if w == 0 then 1 else base * Power(base, w - 1)
  }

  /** Exactly `w` digits. */
  function Fixed(n: nat, base: nat, w: nat): (s: string)
    requires 2 <= base <= 16
    ensures |s| == w
  {
    if w == 0 then "" else Fixed(Quotient(n, base), base, w - 1) + [Digit(Remainder(n, base))]
  }

  lemma {:induction false} ZerosFixed(base: nat, w: nat)
    requires 2 <= base <= 16
    ensures Fixed(0, base, w) == Zeros(w) && |Zeros(w)| == w
  {
    if w > 0 {
      ZerosFixed(base, w - 1);
    }
  }

  lemma DivBelow(n: nat, base: nat, p: nat)
    requires base >= 2 && n < base * p
    ensures Quotient(n, base) < p
  {
  }

  lemma PadOneMore(s: string, c: char, w: nat)
    requires w >= 1
    ensures Padded(s + [c], w) == Padded(s, w - 1) + [c]
  {
    if |s| < w - 1 {
      assert Zeros(w - 1 - |s|) + (s + [c]) == Zeros(w - 1 - |s|) + s + [c];
    }
  }

  lemma NumeralStep(n: nat, base: nat)
    requires 2 <= base <= 16 && n >= base
    ensures Numeral(n, base) == Numeral(Quotient(n, base), base) + [Digit(Remainder(n, base))]
  {
  }

  lemma FixedStep(n: nat, base: nat, w: nat)
    requires 2 <= base <= 16 && w >= 1
    ensures Fixed(n, base, w) == Fixed(Quotient(n, base), base, w - 1) + [Digit(Remainder(n, base))]
  {
  }

  lemma OneDigit(n: nat, base: nat, w: nat)
    requires 2 <= base <= 16 && w >= 1 && n < base
    ensures Padded(Numeral(n, base), w) == Fixed(n, base, w)
  {
    assert Quotient(n, base) == 0 && Remainder(n, base) == n;
    ZerosFixed(base, w - 1);
  }

  /** Within its width a padded numeral is the fixed-width one. */
  lemma {:induction false} PaddedIsFixed(n: nat, base: nat, w: nat)
    requires 2 <= base <= 16 && w >= 1 && n < Power(base, w)
    ensures Padded(Numeral(n, base), w) == Fixed(n, base, w)
  {
    if n < base {
      OneDigit(n, base, w);
    } else {
      DivBelow(n, base, Power(base, w - 1));
      assert w > 1;
      var q, c := Quotient(n, base), Digit(Remainder(n, base));
      PaddedIsFixed(q, base, w - 1);
      hide *;
      NumeralStep(n, base);
      FixedStep(n, base, w);
      PadOneMore(Numeral(q, base), c, w);
    }
  }

  lemma DigitsAscend(c: nat, d: nat)
    requires c < 16 && d < 16
    ensures Digit(c) < Digit(d) <==> c < d
    ensures Digit(c) == Digit(d) <==> c == d
  {
  }

  lemma {:induction false} LessInFront(a: string, b: string, x: string, y: string)
    requires |a| == |b| && Less(a, b)
    ensures Less(a + x, b + y)
  {
    if a[0] == b[0] {
      LessInFront(a[1..], b[1..], x, y);
      assert (a + x)[1..] == a[1..] + x && (b + y)[1..] == b[1..] + y;
    }
  }

  lemma {:induction false} LessAfter(a: string, x: string, y: string)
    requires Less(x, y)
    ensures Less(a + x, a + y)
  {
    if a == [] {
      assert a + x == x && a + y == y;
    } else {
      LessAfter(a[1..], x, y);
      assert (a + x)[1..] == a[1..] + x && (a + y)[1..] == a[1..] + y;
    }
  }

  /** At one width, the order of numerals is the order of numbers. */
  lemma {:induction false} FixedAscends(m: nat, n: nat, base: nat, w: nat)
    requires 2 <= base <= 16 && m < n < Power(base, w)
    ensures Less(Fixed(m, base, w), Fixed(n, base, w))
  {
    DivBelow(n, base, Power(base, w - 1));
    var p, q := Quotient(m, base), Quotient(n, base);
    DivAscends(m, n, base);
    if p < q {
      FixedAscends(p, q, base, w - 1);
    }
    hide *;
    FixedStep(m, base, w);
    FixedStep(n, base, w);
    var c, d := [Digit(Remainder(m, base))], [Digit(Remainder(n, base))];
    if p < q {
      LessInFront(Fixed(p, base, w - 1), Fixed(q, base, w - 1), c, d);
    } else {
      SameQuotient(m, n, base);
      OneCharLess(Remainder(m, base), Remainder(n, base));
      LessAfter(Fixed(p, base, w - 1), c, d);
    }
  }

  lemma OneCharLess(c: nat, d: nat)
    requires c < d < 16
    ensures Less([Digit(c)], [Digit(d)])
  {
    DigitsAscend(c, d);
  }

  lemma DivAscends(m: nat, n: nat, base: nat)
    requires base >= 2 && m <= n
    ensures Quotient(m, base) <= Quotient(n, base)
  {
    var p, q := m / base, n / base;
    Euclid(m, base);
    Euclid(n, base);
    if p > q {
      Scale(base, q + 1, p);
      OneMore(base, q);
    }
  }

  lemma OneMore(base: nat, q: nat)
    ensures base * (q + 1) == base * q + base
  {
  }

  lemma SameQuotient(m: nat, n: nat, base: nat)
    requires base >= 2 && m < n && Quotient(m, base) >= Quotient(n, base)
    ensures Remainder(m, base) < Remainder(n, base) && Quotient(m, base) == Quotient(n, base)
  {
    DivAscends(m, n, base);
    assert m == base * (m / base) + m % base && n == base * (n / base) + n % base;
  }

  const MS_LIMIT: nat := Power(16, 13)
  const COUNTER_LIMIT: nat := Power(10, 8)

  predicate Older(ms1: nat, n1: nat, ms2: nat, n2: nat)
  {
    ms1 < ms2 || (ms1 == ms2 && n1 < n2)
  }

  /** While ids keep their widths, an id that sorts first was created first. */
  lemma IdOrderIsAge(ms1: nat, n1: nat, ms2: nat, n2: nat)
    requires ms1 < MS_LIMIT && ms2 < MS_LIMIT && n1 < COUNTER_LIMIT && n2 < COUNTER_LIMIT
    requires Older(ms1, n1, ms2, n2)
    ensures Less(JobId(ms1, n1), JobId(ms2, n2))
  {
    JobIdFixed(ms1, n1);
    JobIdFixed(ms2, n2);
    if ms1 < ms2 {
      FixedAscends(ms1, ms2, 16, 13);
    } else {
      FixedAscends(n1, n2, 10, 8);
    }
    hide *;
    var a, b := Fixed(ms1, 16, 13), Fixed(ms2, 16, 13);
    if ms1 < ms2 {
      LessInFront(a, b, "-" + Fixed(n1, 10, 8), "-" + Fixed(n2, 10, 8));
    } else {
      LessAfter("-", Fixed(n1, 10, 8), Fixed(n2, 10, 8));
      LessAfter(a, "-" + Fixed(n1, 10, 8), "-" + Fixed(n2, 10, 8));
    }
  }

  lemma JobIdFixed(ms: nat, n: nat)
    requires ms < MS_LIMIT && n < COUNTER_LIMIT
    ensures JobId(ms, n) == Fixed(ms, 16, 13) + ("-" + Fixed(n, 10, 8))
  {
    PaddedIsFixed(ms, 16, 13);
    PaddedIsFixed(n, 10, 8);
    hide Fixed, Padded, Numeral, Power;
    assert Padded(Numeral(ms, 16), 13) + "-" + Padded(Decimal(n), 8)
      == Padded(Numeral(ms, 16), 13) + ("-" + Padded(Decimal(n), 8));
  }

  /** Past the width the order turns: the hundred-millionth job sorts before the one
      created just ahead of it. */
  lemma WideCounterSortsFirst(ms: nat)
    ensures Less(JobId(ms, 100000000), JobId(ms, 99999999))
  {
    var a := Padded(Numeral(ms, 16), 13) + "-";
    EightNines();
    assert Less("100000000", "99999999");
    LessAfter(a, "100000000", "99999999");
  }

  lemma EightNines()
    ensures Padded(Decimal(99999999), 8) == "99999999"
    ensures Padded(Decimal(100000000), 8) == "100000000"
  {
    assert Numeral(9, 10) == "9" && Numeral(99, 10) == "99" && Numeral(999, 10) == "999";
    assert Numeral(9999, 10) == "9999" && Numeral(99999, 10) == "99999" && Numeral(999999, 10) == "999999";
    assert Numeral(9999999, 10) == "9999999" && Numeral(99999999, 10) == "99999999";
    assert Numeral(1, 10) == "1" && Numeral(10, 10) == "10" && Numeral(100, 10) == "100";
    assert Numeral(1000, 10) == "1000" && Numeral(10000, 10) == "10000" && Numeral(100000, 10) == "100000";
    assert Numeral(1000000, 10) == "1000000" && Numeral(10000000, 10) == "10000000"
      && Numeral(100000000, 10) == "100000000";
  }

  /** So does the first id of a longer millisecond before the last of a shorter one. */
  lemma WideMsSortsFirst(n1: nat, n2: nat)
    ensures Less(JobId(MS_LIMIT, n2), JobId(MS_LIMIT - 1, n1))
  {
    WidthEnds(13);
    LongerSortsFirst(MS_LIMIT, n1, n2);
  }

  lemma LongerSortsFirst(p: nat, n1: nat, n2: nat)
    requires p >= 1 && |Numeral(p, 16)| >= 13 && Numeral(p, 16)[0] == '1'
    requires |Numeral(p - 1, 16)| >= 13 && Numeral(p - 1, 16)[0] == 'f'
    ensures Less(JobId(p, n2), JobId(p - 1, n1))
  {
    hide *;
    IdStartsWith(p, n2);
    IdStartsWith(p - 1, n1);
    LessFirst(JobId(p, n2), JobId(p - 1, n1));
  }

  lemma IdStartsWith(ms: nat, n: nat)
    requires |Numeral(ms, 16)| >= 13
    ensures JobId(ms, n) != "" && JobId(ms, n)[0] == Numeral(ms, 16)[0]
  {
    hide Numeral;
  }

  lemma LessFirst(a: string, b: string)
    requires a != "" && b != "" && a[0] < b[0]
    ensures Less(a, b)
  {
  }

  lemma SixteenTimes(p: nat)
    requires p >= 1
    ensures Quotient(16 * p, 16) == p && Quotient(16 * p - 1, 16) == p - 1
  {
  }

  /** The first number of a longer width starts with one, the last of a width with
      its largest digit. */
  lemma {:induction false} WidthEnds(w: nat)
    requires w >= 1
    ensures Power(16, w) >= 16
    ensures |Numeral(Power(16, w), 16)| == w + 1 && Numeral(Power(16, w), 16)[0] == '1'
    ensures |Numeral(Power(16, w) - 1, 16)| == w && Numeral(Power(16, w) - 1, 16)[0] == 'f'
  {
    if w == 1 {
      assert Power(16, 1) == 16 && Numeral(1, 16) == "1" && Numeral(15, 16) == "f";
      NumeralStep(16, 16);
    } else {
      var p := Power(16, w - 1);
      WidthEnds(w - 1);
      assert Power(16, w) == 16 * p;
      hide *;
      SixteenTimes(p);
      NumeralStep(16 * p, 16);
      NumeralStep(16 * p - 1, 16);
    }
  }

  /** Below these bounds the order of ids is the order of creation. */
  ghost predicate IdsSortByAge(m: nat, n: nat)
  {
    forall ms1: nat, n1: nat, ms2: nat, n2: nat :: ms1 < m && ms2 < m && n1 < n && n2 < n && Older(ms1, n1, ms2, n2)
      ==> Less(JobId(ms1, n1), JobId(ms2, n2))
  }

  /** Two jobs whose ids sort against their age, once a width is passed. */
  lemma PastTheWidths(m: nat, n: nat) returns (ms1: nat, n1: nat, ms2: nat, n2: nat)
    requires m >= 1 && n >= 2 && (m > MS_LIMIT || n > COUNTER_LIMIT)
    ensures ms1 < m && ms2 < m && n1 < n && n2 < n && n1 != n2 && Older(ms1, n1, ms2, n2)
    ensures Less(JobId(ms2, n2), JobId(ms1, n1))
  {
    WidthEnds(13);
    CounterLimit();
    if n > COUNTER_LIMIT {
      ms1, n1, ms2, n2 := 0, 99999999, 0, 100000000;
      WideCounterSortsFirst(0);
    } else {
      ms1, n1, ms2, n2 := MS_LIMIT - 1, 0, MS_LIMIT, 1;
      WideMsSortsFirst(0, 1);
    }
  }

  lemma CounterLimit()
    ensures COUNTER_LIMIT == 100000000
  {
    assert Power(10, 4) == 10000;
  }

  /** Ids sort by age below two bounds exactly when neither passes its width. */
  lemma IdsSortByAgeIff(m: nat, n: nat)
    requires m >= 1 && n >= 2
    ensures IdsSortByAge(m, n) <==> m <= MS_LIMIT && n <= COUNTER_LIMIT
  {
    if m <= MS_LIMIT && n <= COUNTER_LIMIT {
      forall ms1: nat, n1: nat, ms2: nat, n2: nat | ms1 < m && ms2 < m && n1 < n && n2 < n && Older(ms1, n1, ms2, n2)
        ensures Less(JobId(ms1, n1), JobId(ms2, n2))
      {
        IdOrderIsAge(ms1, n1, ms2, n2);
      }
    } else {
      var ms1, n1, ms2, n2 := PastTheWidths(m, n);
      Trichotomy(JobId(ms2, n2), JobId(ms1, n1));
    }
  }

  // ----- Ids name one job ------------------------------------------------------------------

  lemma {:induction false} ZerosDenoteNothing(k: nat, s: string)
    requires forall c :: c in s ==> IsDigit(c)
    ensures (forall c :: c in Zeros(k) + s ==> IsDigit(c)) && Denoted(Zeros(k) + s) == Denoted(s)
    decreases k, |s|
  {
    ZerosAreDigits(k);
    if s == [] {
      assert Zeros(k) + s == Zeros(k);
      if k > 0 {
        ZerosDenoteNothing(k - 1, []);
        assert Zeros(k - 1) + [] == Zeros(k - 1);
        assert Zeros(k)[..|Zeros(k)| - 1] == Zeros(k - 1);
      }
    } else {
      var init, z := s[..|s| - 1], Zeros(k) + s;
      ZerosDenoteNothing(k, init);
      assert z[..|z| - 1] == Zeros(k) + init && z[|z| - 1] == s[|s| - 1];
    }
  }

  lemma {:induction false} ZerosAreDigits(k: nat)
    ensures forall c :: c in Zeros(k) ==> IsDigit(c)
  {
    if k > 0 {
      ZerosAreDigits(k - 1);
    }
  }

  lemma {:induction false} NoDash(n: nat, base: nat)
    requires 2 <= base <= 16
    ensures '-' !in Numeral(n, base)
    decreases n
  {
    if n >= base {
      NoDash(Quotient(n, base), base);
    }
  }

  lemma PaddedNoDash(ms: nat)
    ensures '-' !in Padded(Numeral(ms, 16), 13)
  {
    NoDash(ms, 16);
    ZerosAreDigits(13 - if |Numeral(ms, 16)| > 13 then 13 else |Numeral(ms, 16)|);
  }

  /** Different counters never share an id, in whatever millisecond and at any width. */
  lemma IdsTellCounters(ms1: nat, n1: nat, ms2: nat, n2: nat)
    requires JobId(ms1, n1) == JobId(ms2, n2)
    ensures n1 == n2
  {
    var a, b := Padded(Numeral(ms1, 16), 13), Padded(Numeral(ms2, 16), 13);
    var x, y := Padded(Decimal(n1), 8), Padded(Decimal(n2), 8);
    PaddedNoDash(ms1);
    PaddedNoDash(ms2);
    assert a + ['-'] + x == JobId(ms1, n1) && b + ['-'] + y == JobId(ms2, n2);
    SplitAfter(a, '-', x);
    SplitAfter(b, '-', y);
    assert Split(a + ['-'] + x, '-')[0] == a && Split(b + ['-'] + y, '-')[0] == b;
    assert x == (a + ['-'] + x)[|a| + 1..] && y == (b + ['-'] + y)[|b| + 1..];
    PaddedDenotes(n1);
    PaddedDenotes(n2);
  }

  lemma PaddedDenotes(n: nat)
    ensures (forall c :: c in Padded(Decimal(n), 8) ==> IsDigit(c)) && Denoted(Padded(Decimal(n), 8)) == n
  {
    DecimalDenotes(n);
    var s := Decimal(n);
    if |s| < 8 {
      ZerosDenoteNothing(8 - |s|, s);
    }
  }

  // ----- The registry -----------------------------------------------------------------------

  datatype JobInfo = JobInfo(ms: nat, n: nat, status: Status)

  const CAPACITY := 50

  predicate IsFinished(jobs: map<string, JobInfo>, id: string)
  {
    id in jobs && jobs[id].status != Running
  }

  function FinishedIds(jobs: map<string, JobInfo>): set<string>
  {
    set id | id in jobs && jobs[id].status != Running
  }

  function RunningIds(jobs: map<string, JobInfo>): set<string>
  {
    set id | id in jobs && jobs[id].status == Running
  }

  /** The smallest id of a finished job. */
  function Victim(jobs: map<string, JobInfo>): (r: Option<string>)
    ensures r.Some? ==> IsFinished(jobs, r.value) && forall id :: IsFinished(jobs, id) ==> AtMost(r.value, id)
    ensures r.None? ==> forall id :: id in jobs ==> jobs[id].status == Running
  {
    var keys := SortedKeys(FinishedIds(jobs));
    if keys == [] then
      assert forall id :: id in jobs && jobs[id].status != Running ==> id in FinishedIds(jobs) && id in keys;
      None
    else
      assert keys[0] in keys;
      assert forall id :: IsFinished(jobs, id) ==> id in FinishedIds(jobs) && id in keys;
      Some(keys[0])
  }

  function Evict(jobs: map<string, JobInfo>): map<string, JobInfo>
  {
    if |jobs| <= CAPACITY || Victim(jobs).None? then jobs else jobs - {Victim(jobs).value}
  }

  class JobRegistry {
    var jobs: map<string, JobInfo>
    var counter: nat

    constructor ()
      ensures jobs == map[] && counter == 0
    {
      jobs, counter := map[], 0;
    }

    /** `create`, once the clock is read. */
    method Create(ms: nat) returns (id: string)
      modifies this
      ensures id == JobId(ms, old(counter)) && counter == old(counter) + 1
      ensures jobs == Evict(old(jobs)[id := JobInfo(ms, old(counter), Running)])
    {
      var n := counter;
      counter := counter + 1;
      id := JobId(ms, n);
      jobs := jobs[id := JobInfo(ms, n, Running)];
      if |jobs| > CAPACITY {
        var victim := Victim(jobs);
        if victim.Some? {
          jobs := jobs - {victim.value};
        }
      }
    }
  }

  /** Creating takes a number first and the map's lock after, so creates may overtake
      each other; jobs finish whenever they do. `peak` is the most that ran at once. */
  datatype Registry = Registry(jobs: map<string, JobInfo>, counter: nat, taken: set<nat>, peak: nat)

  const EMPTY_REGISTRY := Registry(map[], 0, {}, 0)

  datatype Event = Take | Insert(n: nat, ms: nat) | End(id: string, to: Status)

  function Step(r: Registry, e: Event): Option<Registry>
  {
    match e
    case Take => Some(r.(counter := r.counter + 1, taken := r.taken + {r.counter}))
    case Insert(n, ms) =>
      if n !in r.taken then None
      else
        var jobs := r.jobs[JobId(ms, n) := JobInfo(ms, n, Running)];
        var running := |RunningIds(jobs)|;
        Some(Registry(Evict(jobs), r.counter, r.taken - {n}, if running > r.peak then running else r.peak))
    case End(id, to) =>
      if id in r.jobs && r.jobs[id].status == Running && to != Running
      then Some(r.(jobs := r.jobs[id := r.jobs[id].(status := to)]))
      else None
  }

  function Run(r: Registry, events: seq<Event>): Option<Registry>
    decreases |events|
  {
    if events == [] then Some(r) else match Step(r, events[0]) case None => None case Some(s) => Run(s, events[1..])
  }

  predicate RegistryGood(r: Registry)
  {
    && (forall id :: id in r.jobs ==>
          id == JobId(r.jobs[id].ms, r.jobs[id].n) && r.jobs[id].n !in r.taken && r.jobs[id].n < r.counter)
    && (forall n :: n in r.taken ==> n < r.counter)
    && (|r.jobs| <= CAPACITY || |r.jobs| <= r.peak)
  }

  lemma AllRunning(jobs: map<string, JobInfo>)
    requires Victim(jobs).None?
    ensures |RunningIds(jobs)| == |jobs|
  {
    assert RunningIds(jobs) == jobs.Keys;
    assert |jobs| == |jobs.Keys|;
  }

  lemma InsertedSize(jobs: map<string, JobInfo>, id: string, info: JobInfo)
    ensures |jobs[id := info]| <= |jobs| + 1
  {
    assert jobs[id := info].Keys == jobs.Keys + {id};
    assert |jobs| == |jobs.Keys| && |jobs[id := info]| == |jobs[id := info].Keys|;
  }

  lemma EvictedSize(jobs: map<string, JobInfo>)
    ensures |Evict(jobs)| == if |jobs| <= CAPACITY || Victim(jobs).None? then |jobs| else |jobs| - 1
  {
    if |jobs| > CAPACITY && Victim(jobs).Some? {
      assert (jobs - {Victim(jobs).value}).Keys == jobs.Keys - {Victim(jobs).value};
      assert |jobs| == |jobs.Keys| && |Evict(jobs)| == |Evict(jobs).Keys|;
    }
  }

  lemma StepKeepsRegistry(r: Registry, e: Event)
    requires RegistryGood(r) && Step(r, e).Some?
    ensures RegistryGood(Step(r, e).value)
  {
    hide JobId, Victim;
    match e
    case Take =>
    case Insert(n, ms) =>
      var jobs := r.jobs[JobId(ms, n) := JobInfo(ms, n, Running)];
      InsertedSize(r.jobs, JobId(ms, n), JobInfo(ms, n, Running));
      EvictedSize(jobs);
      if Victim(jobs).None? {
        AllRunning(jobs);
      }
    case End(id, to) =>
      assert r.jobs[id := r.jobs[id].(status := to)].Keys == r.jobs.Keys;
      assert |r.jobs| == |r.jobs.Keys|;
  }

  lemma {:induction false} RunKeepsRegistry(r: Registry, events: seq<Event>)
    requires RegistryGood(r) && Run(r, events).Some?
    ensures RegistryGood(Run(r, events).value)
    decreases |events|
  {
    hide Step, RegistryGood;
    if events != [] {
      StepKeepsRegistry(r, events[0]);
      RunKeepsRegistry(Step(r, events[0]).value, events[1..]);
    }
  }

  /** The registry never holds more than fifty jobs, or than ever ran at once. */
  lemma RegistryStaysBounded(events: seq<Event>)
    requires Run(EMPTY_REGISTRY, events).Some?
    ensures var r := Run(EMPTY_REGISTRY, events).value; |r.jobs| <= if r.peak > CAPACITY then r.peak else CAPACITY
  {
    RunKeepsRegistry(EMPTY_REGISTRY, events);
  }

  lemma EvictKeepsRunning(jobs: map<string, JobInfo>, id: string)
    requires id in jobs && jobs[id].status == Running
    ensures id in Evict(jobs) && Evict(jobs)[id] == jobs[id]
  {
    if Victim(jobs).Some? {
      assert IsFinished(jobs, Victim(jobs).value);
    }
    hide Victim;
  }

  lemma InsertKeepsRunning(r: Registry, n: nat, ms: nat, id: string)
    requires RegistryGood(r) && n in r.taken && id in r.jobs && r.jobs[id].status == Running
    ensures var jobs := Evict(r.jobs[JobId(ms, n) := JobInfo(ms, n, Running)]); id in jobs && jobs[id] == r.jobs[id]
  {
    if JobId(ms, n) == id {
      IdsTellCounters(ms, n, r.jobs[id].ms, r.jobs[id].n);
    }
    hide JobId, Evict;
    EvictKeepsRunning(r.jobs[JobId(ms, n) := JobInfo(ms, n, Running)], id);
  }

  /** No create drops or replaces a running job; only its own end ends it. */
  lemma RunningIsNeverDropped(events: seq<Event>, e: Event, id: string)
    requires Run(EMPTY_REGISTRY, events).Some? && Step(Run(EMPTY_REGISTRY, events).value, e).Some?
    requires var r := Run(EMPTY_REGISTRY, events).value; id in r.jobs && r.jobs[id].status == Running
    ensures var (r, s) := (Run(EMPTY_REGISTRY, events).value, Step(Run(EMPTY_REGISTRY, events).value, e).value);
            id in s.jobs && (s.jobs[id] == r.jobs[id] || (e.End? && e.id == id))
  {
    RunKeepsRegistry(EMPTY_REGISTRY, events);
    var r := Run(EMPTY_REGISTRY, events).value;
    hide Run, Evict, JobId, RegistryGood;
    if e.Insert? {
      InsertKeepsRunning(r, e.n, e.ms, id);
    }
  }

  predicate Within(jobs: map<string, JobInfo>, m: nat, n: nat)
  {
    forall id :: id in jobs ==> jobs[id].ms < m && jobs[id].n < n
  }

  predicate Identified(jobs: map<string, JobInfo>)
  {
    forall id :: id in jobs ==> id == JobId(jobs[id].ms, jobs[id].n)
  }

  /** While ids keep their widths, what is evicted is a finished job, and no finished
      job is older. */
  lemma VictimIsOldestFinished(jobs: map<string, JobInfo>, id: string)
    requires Identified(jobs) && Within(jobs, MS_LIMIT, COUNTER_LIMIT) && IsFinished(jobs, id)
    ensures Victim(jobs).Some? && IsFinished(jobs, Victim(jobs).value)
    ensures var v := Victim(jobs).value; !Older(jobs[id].ms, jobs[id].n, jobs[v].ms, jobs[v].n)
  {
    var v := Victim(jobs).value;
    var a, b := jobs[id], jobs[v];
    assert id == JobId(a.ms, a.n) && v == JobId(b.ms, b.n);
    hide Victim, JobId;
    if Older(a.ms, a.n, b.ms, b.n) {
      IdOrderIsAge(a.ms, a.n, b.ms, b.n);
      Trichotomy(id, v);
    }
  }

  /** Below these bounds the victim is the oldest finished job in every registry. */
  ghost predicate VictimsAreOldest(m: nat, n: nat)
  {
    forall jobs: map<string, JobInfo>, id :: Identified(jobs) && Within(jobs, m, n) && IsFinished(jobs, id) ==>
      Victim(jobs).Some? && !Older(jobs[id].ms, jobs[id].n, jobs[Victim(jobs).value].ms, jobs[Victim(jobs).value].n)
  }

  /** Exactly when neither bound passes its width. */
  lemma VictimsAreOldestIff(m: nat, n: nat)
    requires m >= 1 && n >= 2
    ensures VictimsAreOldest(m, n) <==> m <= MS_LIMIT && n <= COUNTER_LIMIT
  {
    if m <= MS_LIMIT && n <= COUNTER_LIMIT {
      forall jobs: map<string, JobInfo>, id | Identified(jobs) && Within(jobs, m, n) && IsFinished(jobs, id)
        ensures Victim(jobs).Some?
        ensures !Older(jobs[id].ms, jobs[id].n, jobs[Victim(jobs).value].ms, jobs[Victim(jobs).value].n)
      {
        VictimIsOldestFinished(jobs, id);
      }
    } else {
      var ms1, n1, ms2, n2 := PastTheWidths(m, n);
      NewerIsEvicted(ms1, n1, ms2, n2, m, n);
    }
  }

  lemma NewerIsEvicted(ms1: nat, n1: nat, ms2: nat, n2: nat, m: nat, n: nat)
    requires ms1 < m && ms2 < m && n1 < n && n2 < n && Older(ms1, n1, ms2, n2)
    requires Less(JobId(ms2, n2), JobId(ms1, n1))
    ensures !VictimsAreOldest(m, n)
  {
    var a, b := JobId(ms1, n1), JobId(ms2, n2);
    var jobs := map[a := JobInfo(ms1, n1, Done), b := JobInfo(ms2, n2, Done)];
    Trichotomy(a, b);
    hide JobId;
    assert Identified(jobs) && Within(jobs, m, n) && IsFinished(jobs, a) && IsFinished(jobs, b);
    assert Victim(jobs) == Some(b);
  }
}
