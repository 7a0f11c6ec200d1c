/**
The ban table's concurrent protocol (fw_ban.c): any number of threads insert, unlink and look up,
each lock-held region one atomic step.

An insert checks for a duplicate and for room, links, drops the bucket lock and only then marks its
layer; a removal unlinks first and releases the layer afterwards. Lookups hold no lock.
*/
module BanProtocol {
  import opened Prefix
  import opened BanSpec

  datatype Env = Env(jhash: Addr -> nat, max: nat, inserts: nat)

  datatype Pc =
    | Idle
    | Checked(key: Key)                  // inside its bucket lock: key absent and ban_count < max
    | MustMark(layer: nat)               // linked, bucket lock dropped
    | MustRelease(layer: nat, n: nat)    // unlinked `n` entries of one bucket
    | Testing(ip: Addr, c: nat)          // about to read the bitmap for the c-th layer in probe order
    | Walking(ip: Addr, c: nat)          // saw the bit, about to walk the bucket
    | Found(ip: Addr, hit: bool)

  datatype State = State(linked: set<Key>, count: seq<int>, used: set<nat>, banCount: int, threads: seq<Pc>)

  datatype Step =
    | Check(t: nat, key: Key)
    | Link(t: nat)
    | Mark(t: nat)
    | Unlink(t: nat, gone: set<Key>)
    | Release(t: nat)
    | BeginLookup(t: nat, ip: Addr)
    | Test(t: nat)
    | Walk(t: nat)
    | Return(t: nat)

  function SlotOf(e: Env, k: Key): (nat, nat)
    requires k.Valid()
  {
    (LayerOf(k), Bucket(e.jhash, k.addr, k.prefix))
  }

  /** Probe order of fw_ban_lookup: the full length first, then 0, 1, 2, ... */
  function PrefixAt(ip: Addr, c: nat): (p: nat)
    requires c <= MaxPrefix(ip.Af())
    ensures ValidPrefix(ip, p)
  {
    if c == 0 then MaxPrefix(ip.Af()) else c - 1
  }

  function OrderOf(k: Key): (c: nat)
    requires k.Valid()
    ensures c <= MaxPrefix(k.addr.Af()) && PrefixAt(k.addr, c) == k.prefix
  {
    if k.prefix == MaxPrefix(k.addr.Af()) then 0 else k.prefix + 1
  }

  function Sum(threads: seq<Pc>, w: Pc -> int): int {
    if threads == [] then 0 else Sum(threads[..|threads| - 1], w) + w(threads[|threads| - 1])
  }

  function MarksOf(l: nat): Pc -> int { (pc: Pc) => if pc.MustMark? && pc.layer == l then 1 else 0 }

  function ReleasesOf(l: nat): Pc -> int { (pc: Pc) => if pc.MustRelease? && pc.layer == l then pc.n else 0 }

  function InsertsOf(): Pc -> int { (pc: Pc) => if pc.Checked? then 1 else 0 }

  /** Inserts into layer `l` that have linked but not marked yet. */
  function PendingMarks(s: State, l: nat): int { Sum(s.threads, MarksOf(l)) }

  /** Entries of layer `l` that are unlinked but not released yet. */
  function PendingReleases(s: State, l: nat): int { Sum(s.threads, ReleasesOf(l)) }

  /** Inserts between their capacity check and their link. */
  function InFlight(s: State): int { Sum(s.threads, InsertsOf()) }

  predicate WellFormed(s: State) {
    && |s.count| == LAYERS
    && (forall k :: k in s.linked ==> k.Valid())
    && (forall t :: 0 <= t < |s.threads| ==> match s.threads[t]
        case Checked(k) => k.Valid()
        case MustMark(l) => l < LAYERS
        case MustRelease(l, n) => l < LAYERS
        case Walking(ip, c) => c <= MaxPrefix(ip.Af())
        case _ => true)
  }

  /** Some thread holds the lock of bucket `b`. */
  ghost predicate Locked(e: Env, s: State, b: (nat, nat))
    requires WellFormed(s)
  {
    exists t :: 0 <= t < |s.threads| && s.threads[t].Checked? && SlotOf(e, s.threads[t].key) == b
  }

  ghost predicate Enabled(e: Env, s: State, step: Step)
    requires WellFormed(s)
  {
    && step.t < |s.threads|
    && match step
       case Check(t, k) =>
         s.threads[t].Idle? && k.Valid() && !Locked(e, s, SlotOf(e, k)) && k !in s.linked
         && s.banCount < e.max && InFlight(s) < e.inserts
       case Link(t) => s.threads[t].Checked?
       case Mark(t) => s.threads[t].MustMark?
       case Unlink(t, gone) =>
         s.threads[t].Idle? && gone != {} && gone <= s.linked
         && (forall k, k2 :: k in gone && k2 in gone ==> SlotOf(e, k) == SlotOf(e, k2))
         && (forall k :: k in gone ==> !Locked(e, s, SlotOf(e, k)))
       case Release(t) => s.threads[t].MustRelease?
       case BeginLookup(t, ip) => s.threads[t].Idle?
       case Test(t) => s.threads[t].Testing?
       case Walk(t) => s.threads[t].Walking?
       case Return(t) => s.threads[t].Found?
  }

  /** The bucket walk of fw_ban_probe_layer on the linked entries. */
  ghost predicate Hit(e: Env, linked: set<Key>, ip: Addr, prefix: nat)
    requires ValidPrefix(ip, prefix) && forall k :: k in linked ==> k.Valid()
  {
    exists k :: k in linked && SlotOf(e, k) == SlotOf(e, Key(ip, prefix)) && k.Matches(ip)
  }

  ghost function Apply(e: Env, s: State, step: Step): (r: State)
    requires WellFormed(s) && Enabled(e, s, step)
    ensures WellFormed(r) && |r.threads| == |s.threads|
  {
    var t := step.t;
    match step
    case Check(_, k) => s.(threads := s.threads[t := Checked(k)])
    case Link(_) =>
      var k := s.threads[t].key;
      s.(linked := s.linked + {k}, banCount := s.banCount + 1, threads := s.threads[t := MustMark(LayerOf(k))])
    case Mark(_) =>
      var l := s.threads[t].layer;
      s.(count := s.count[l := s.count[l] + 1],
         used := if s.count[l] + 1 == 1 then s.used + {l} else s.used,
         threads := s.threads[t := Idle])
    case Unlink(_, gone) =>
      var k :| k in gone;
      s.(linked := s.linked - gone, banCount := s.banCount - |gone|,
         threads := s.threads[t := MustRelease(LayerOf(k), |gone|)])
    case Release(_) =>
      var l, n := s.threads[t].layer, s.threads[t].n;
      s.(count := s.count[l := s.count[l] - n],
         used := if s.count[l] - n <= 0 then s.used - {l} else s.used,
         threads := s.threads[t := Idle])
    case BeginLookup(_, ip) => s.(threads := s.threads[t := Testing(ip, 0)])
    case Test(_) =>
      var ip, c := s.threads[t].ip, s.threads[t].c;
      var next :=
        if c > MaxPrefix(ip.Af()) then Found(ip, false)
        else if Layer(ip.Af(), PrefixAt(ip, c)) in s.used then Walking(ip, c)
        else Testing(ip, c + 1);
      s.(threads := s.threads[t := next])
    case Walk(_) =>
      var ip, c := s.threads[t].ip, s.threads[t].c;
      var hit := Hit(e, s.linked, ip, PrefixAt(ip, c));
      s.(threads := s.threads[t := if hit then Found(ip, true) else Testing(ip, c + 1)])
    case Return(_) => s.(threads := s.threads[t := Idle])
  }

  ghost predicate Init(s: State) {
    && WellFormed(s) && s.linked == {} && s.used == {} && s.banCount == 0
    && (forall l :: 0 <= l < LAYERS ==> s.count[l] == 0)
    && (forall t :: 0 <= t < |s.threads| ==> s.threads[t].Idle?)
  }

  /** `steps` is an interleaving the locks allow, starting in `s`. */
  ghost predicate IsRun(e: Env, s: State, steps: seq<Step>)
    requires WellFormed(s)
    decreases steps
  {
    steps == [] || (Enabled(e, s, steps[0]) && IsRun(e, Apply(e, s, steps[0]), steps[1..]))
  }

  ghost function After(e: Env, s: State, steps: seq<Step>): (r: State)
    requires WellFormed(s) && IsRun(e, s, steps)
    ensures WellFormed(r) && |r.threads| == |s.threads|
    decreases steps
  {
    if steps == [] then s else After(e, Apply(e, s, steps[0]), steps[1..])
  }

  // ---------------------------------------------------------------- the invariant

  ghost function InLayer(linked: set<Key>, l: nat): set<Key>
    requires forall k :: k in linked ==> k.Valid()
  {
    set k | k in linked && LayerOf(k) == l
  }

  /** A layer's count is its linked entries, less pending marks, plus pending releases. */
  ghost predicate Accounting(s: State)
    requires WellFormed(s)
  {
    forall l: nat :: l < LAYERS ==> s.count[l] == |InLayer(s.linked, l)| - PendingMarks(s, l) + PendingReleases(s, l)
  }

  /** A layer's bit is set exactly while its count is positive. */
  ghost predicate Bitmap(s: State)
    requires WellFormed(s)
  {
    forall l: nat :: l < LAYERS ==> (l in s.used <==> s.count[l] > 0)
  }

  /** Bucket locks are exclusive, and a key found absent under one stays absent. */
  ghost predicate Exclusion(e: Env, s: State)
    requires WellFormed(s)
  {
    && (forall t :: 0 <= t < |s.threads| && s.threads[t].Checked? ==> s.threads[t].key !in s.linked)
    && (forall t, u :: (0 <= t < u < |s.threads| && s.threads[t].Checked? && s.threads[u].Checked?
        ==> SlotOf(e, s.threads[t].key) != SlotOf(e, s.threads[u].key)))
  }

  ghost predicate Inv(e: Env, s: State) {
    && WellFormed(s) && Accounting(s) && Bitmap(s) && Exclusion(e, s)
    && s.banCount == |s.linked|
    && s.banCount + InFlight(s) <= e.max + e.inserts - 1
  }

  lemma {:induction false} SumUpdate(threads: seq<Pc>, t: nat, pc: Pc, w: Pc -> int)
    requires t < |threads|
    ensures Sum(threads[t := pc], w) == Sum(threads, w) - w(threads[t]) + w(pc)
  {
    var m := |threads| - 1;
    if t == m {
      assert threads[t := pc][..m] == threads[..m];
    } else {
      SumUpdate(threads[..m], t, pc, w);
      assert threads[t := pc][..m] == threads[..m][t := pc];
    }
  }

  lemma {:induction false} SumNonNegative(threads: seq<Pc>, w: Pc -> int)
    requires forall t :: 0 <= t < |threads| ==> w(threads[t]) >= 0
    ensures Sum(threads, w) >= 0
    ensures Sum(threads, w) == 0 <==> forall t :: 0 <= t < |threads| ==> w(threads[t]) == 0
  {
    if threads != [] { SumNonNegative(threads[..|threads| - 1], w); }
  }

  lemma InvInit(e: Env, s: State)
    requires Init(s) && e.inserts >= 1
    ensures Inv(e, s)
  {
    SumNonNegative(s.threads, InsertsOf());
    forall l: nat | l < LAYERS ensures PendingMarks(s, l) == PendingReleases(s, l) == 0 {
      SumNonNegative(s.threads, MarksOf(l));
      SumNonNegative(s.threads, ReleasesOf(l));
      assert InLayer(s.linked, l) == {};
    }
  }

  lemma InLayerGrow(linked: set<Key>, k: Key, l: nat)
    requires k.Valid() && k !in linked && forall j :: j in linked ==> j.Valid()
    ensures |InLayer(linked + {k}, l)| == |InLayer(linked, l)| + if LayerOf(k) == l then 1 else 0
  {
    assert InLayer(linked + {k}, l) == InLayer(linked, l) + if LayerOf(k) == l then {k} else {};
  }

  lemma InLayerShrink(linked: set<Key>, gone: set<Key>, home: nat, l: nat)
    requires gone <= linked && forall j :: j in linked ==> j.Valid()
    requires forall k :: k in gone ==> LayerOf(k) == home
    ensures |InLayer(linked - gone, l)| == |InLayer(linked, l)| - if home == l then |gone| else 0
  {
    if home == l {
      assert gone <= InLayer(linked, l);
      assert InLayer(linked - gone, l) == InLayer(linked, l) - gone;
    } else {
      assert InLayer(linked - gone, l) == InLayer(linked, l);
    }
  }

  ghost function Owed(s: State, l: nat): int { PendingMarks(s, l) - PendingReleases(s, l) }

  function OwedBy(pc: Pc, l: nat): int { MarksOf(l)(pc) - ReleasesOf(l)(pc) }

  lemma AccountingStep(e: Env, s: State, step: Step, l: nat)
    requires Inv(e, s) && Enabled(e, s, step) && l < LAYERS
    ensures var r := Apply(e, s, step); r.count[l] == |InLayer(r.linked, l)| - Owed(r, l)
  {
    var r := Apply(e, s, step);
    var t := step.t;
    assert Owed(r, l) == Owed(s, l) - OwedBy(s.threads[t], l) + OwedBy(r.threads[t], l) by {
      SumUpdate(s.threads, t, r.threads[t], MarksOf(l));
      SumUpdate(s.threads, t, r.threads[t], ReleasesOf(l));
    }
    if step.Link? {
      InLayerGrow(s.linked, s.threads[t].key, l);
    } else if step.Unlink? {
      InLayerShrink(s.linked, step.gone, r.threads[t].layer, l);
    }
  }

  /** Bits follow counts: only the 0 -> 1 mark sets one, only a release reaching zero clears one. */
  lemma BitmapStep(e: Env, s: State, step: Step)
    requires Inv(e, s) && Enabled(e, s, step)
    ensures Bitmap(Apply(e, s, step))
  {
  }

  lemma ExclusionStep(e: Env, s: State, step: Step)
    requires Inv(e, s) && Enabled(e, s, step)
    ensures Exclusion(e, Apply(e, s, step))
  {
    match step {
      case Check(_, _) => CheckExcludes(e, s, step);
      case Link(_) => LinkExcludes(e, s, step);
      case _ =>
    }
  }

  lemma CheckExcludes(e: Env, s: State, step: Step)
    requires Inv(e, s) && Enabled(e, s, step) && step.Check?
    ensures Exclusion(e, Apply(e, s, step))
  {
  }

  lemma LinkExcludes(e: Env, s: State, step: Step)
    requires Inv(e, s) && Enabled(e, s, step) && step.Link?
    ensures Exclusion(e, Apply(e, s, step))
  {
  }

  /** Every step the locks allow keeps the invariant. */
  lemma InvStep(e: Env, s: State, step: Step)
    requires Inv(e, s) && Enabled(e, s, step)
    ensures Inv(e, Apply(e, s, step))
  {
    var r := Apply(e, s, step);
    assert Accounting(r) by {
      forall l: nat | l < LAYERS ensures r.count[l] == |InLayer(r.linked, l)| - Owed(r, l) {
        AccountingStep(e, s, step, l);
      }
    }
    BitmapStep(e, s, step);
    ExclusionStep(e, s, step);
    SumUpdate(s.threads, step.t, r.threads[step.t], InsertsOf());
  }

  lemma {:induction false} InvRun(e: Env, s: State, steps: seq<Step>)
    requires Inv(e, s) && IsRun(e, s, steps)
    ensures Inv(e, After(e, s, steps))
    decreases steps
  {
    if steps != [] {
      InvStep(e, s, steps[0]);
      InvRun(e, Apply(e, s, steps[0]), steps[1..]);
    }
  }

  // ---------------------------------------------------------------- what every run guarantees

  /** In every interleaving the accounting, the bitmap, unique keys and the capacity bound hold. */
  lemma AlwaysAccounted(e: Env, s: State, steps: seq<Step>)
    requires Init(s) && e.inserts >= 1 && IsRun(e, s, steps)
    ensures var r := After(e, s, steps);
      && Accounting(r) && Bitmap(r)
      && r.banCount == |r.linked| <= e.max + e.inserts - 1
  {
    InvInit(e, s);
    InvRun(e, s, steps);
    SumNonNegative(After(e, s, steps).threads, InsertsOf());
  }

  /** The exact visibility condition of a layer. */
  lemma LayerVisible(e: Env, s: State, l: nat)
    requires Inv(e, s) && l < LAYERS
    ensures l in s.used <==> |InLayer(s.linked, l)| + PendingReleases(s, l) > PendingMarks(s, l)
    ensures PendingMarks(s, l) >= 0 && PendingReleases(s, l) >= 0
  {
    SumNonNegative(s.threads, MarksOf(l));
    SumNonNegative(s.threads, ReleasesOf(l));
  }

  /** With no insert between link and mark in its layer, a linked entry's layer is probed. */
  lemma LinkedIsVisible(e: Env, s: State, k: Key)
    requires Inv(e, s) && k in s.linked && PendingMarks(s, LayerOf(k)) == 0
    ensures LayerOf(k) in s.used
  {
    LayerVisible(e, s, LayerOf(k));
    assert k in InLayer(s.linked, LayerOf(k));
  }

  /** Once nothing is pending, the bitmap is exactly the set of non-empty layers. */
  lemma QuiescentBitmap(e: Env, s: State, l: nat)
    requires Inv(e, s) && l < LAYERS
    requires forall t :: 0 <= t < |s.threads| ==> !s.threads[t].MustMark? && !s.threads[t].MustRelease?
    ensures l in s.used <==> exists k :: k in s.linked && LayerOf(k) == l
  {
    SumNonNegative(s.threads, MarksOf(l));
    SumNonNegative(s.threads, ReleasesOf(l));
    if k :| k in s.linked && LayerOf(k) == l { assert k in InLayer(s.linked, l); }
    if InLayer(s.linked, l) != {} {
      var k :| k in InLayer(s.linked, l);
      assert k in s.linked && LayerOf(k) == l;
    }
  }

  /** The lookup in thread position `pc` has not passed the layer of `k` yet, or has already hit. */
  predicate NotPassed(pc: Pc, ip: Addr, k: Key)
    requires k.Valid()
  {
    match pc
    case Testing(a, c) => a == ip && c <= OrderOf(k)
    case Walking(a, c) => a == ip && c <= OrderOf(k)
    case Found(a, hit) => a == ip && hit
    case _ => false
  }

  /** When thread `t` tests the layer of `k` its bit is set, and when it walks that bucket `k` is linked. */
  ghost predicate SeenWhenProbed(e: Env, s: State, steps: seq<Step>, t: nat, k: Key)
    requires WellFormed(s) && IsRun(e, s, steps) && k.Valid()
    decreases steps
  {
    steps != [] ==>
      && (steps[0] == Test(t) && s.threads[t].c == OrderOf(k) ==> LayerOf(k) in s.used)
      && (steps[0] == Walk(t) && s.threads[t].c == OrderOf(k) ==> k in s.linked)
      && SeenWhenProbed(e, Apply(e, s, steps[0]), steps[1..], t, k)
  }

  /**
  A lookup racing with anything finds a ban that covers the address, provided the layer's bit is set
  at the instant it is tested and the ban is linked at the instant its bucket is walked.
  */
  lemma {:induction false} LookupFinds(e: Env, s: State, steps: seq<Step>, t: nat, ip: Addr, k: Key)
    requires WellFormed(s) && IsRun(e, s, steps) && t < |s.threads|
    requires k.Valid() && k.Matches(ip) && SeenWhenProbed(e, s, steps, t, k)
    requires NotPassed(s.threads[t], ip, k)
    requires forall i :: 0 <= i < |steps| ==> steps[i] != Return(t)
    ensures NotPassed(After(e, s, steps).threads[t], ip, k)
    decreases steps
  {
    if steps != [] {
      LookupStep(e, s, steps[0], t, ip, k);
      LookupFinds(e, Apply(e, s, steps[0]), steps[1..], t, ip, k);
    }
  }

  lemma LookupStep(e: Env, s: State, step: Step, t: nat, ip: Addr, k: Key)
    requires WellFormed(s) && Enabled(e, s, step) && t < |s.threads| && k.Valid() && k.Matches(ip)
    requires step == Test(t) && s.threads[t].c == OrderOf(k) ==> LayerOf(k) in s.used
    requires step == Walk(t) && s.threads[t].c == OrderOf(k) ==> k in s.linked
    requires NotPassed(s.threads[t], ip, k) && step != Return(t)
    ensures NotPassed(Apply(e, s, step).threads[t], ip, k)
  {
    CoveredSameBucket(e.jhash, k, ip);
    if step == Walk(t) && s.threads[t].c == OrderOf(k) {
      assert Hit(e, s.linked, ip, k.prefix);
    }
  }

  /** `k` is linked now and after every step, and no insert into its layer is left unmarked. */
  ghost predicate StaysMarked(e: Env, s: State, steps: seq<Step>, k: Key)
    requires WellFormed(s) && IsRun(e, s, steps) && k.Valid()
    decreases steps
  {
    && k in s.linked && PendingMarks(s, LayerOf(k)) == 0
    && (steps != [] ==> StaysMarked(e, Apply(e, s, steps[0]), steps[1..], k))
  }

  /** Enough for that: the ban stays linked, and no insert into its layer sits between link and mark. */
  lemma {:induction false} MarkedIsSeen(e: Env, s: State, steps: seq<Step>, t: nat, k: Key)
    requires Inv(e, s) && IsRun(e, s, steps) && k.Valid() && StaysMarked(e, s, steps, k)
    ensures SeenWhenProbed(e, s, steps, t, k)
    decreases steps
  {
    if steps != [] {
      LinkedIsVisible(e, s, k);
      InvStep(e, s, steps[0]);
      MarkedIsSeen(e, Apply(e, s, steps[0]), steps[1..], t, k);
    }
  }

  predicate LookingUp(pc: Pc, ip: Addr) { (pc.Testing? || pc.Walking?) && pc.ip == ip }

  /** A running lookup keeps running or answers; it hits only at a walk that finds a covering ban. */
  lemma HitStep(e: Env, s: State, step: Step, t: nat, ip: Addr)
    requires WellFormed(s) && Enabled(e, s, step) && t < |s.threads| && LookingUp(s.threads[t], ip)
    ensures var pc := Apply(e, s, step).threads[t];
      LookingUp(pc, ip) || (pc.Found? && (pc.hit ==> CoveredIn(s, ip)))
  {
    if step == Walk(t) && Hit(e, s.linked, ip, PrefixAt(ip, s.threads[t].c)) {
      var k :| k in s.linked && SlotOf(e, k) == SlotOf(e, Key(ip, PrefixAt(ip, s.threads[t].c))) && k.Matches(ip);
    }
  }

  /** Conversely a lookup that answers "banned" saw, at some moment of its run, a linked ban covering the address. */
  lemma {:induction false} HitsAreReal(e: Env, s: State, steps: seq<Step>, t: nat, ip: Addr)
    requires WellFormed(s) && IsRun(e, s, steps) && t < |s.threads| && LookingUp(s.threads[t], ip)
    requires forall i :: 0 <= i < |steps| ==> steps[i] != Return(t)
    ensures After(e, s, steps).threads[t] == Found(ip, true)
      ==> exists n: nat :: n <= |steps| && IsRun(e, s, steps[..n]) && CoveredIn(After(e, s, steps[..n]), ip)
    decreases steps
  {
    if steps != [] && After(e, s, steps).threads[t] == Found(ip, true) {
      var r := Apply(e, s, steps[0]);
      HitStep(e, s, steps[0], t, ip);
      if r.threads[t].Found? {
        FoundStays(e, r, steps[1..], t);
        assert After(e, s, steps[..0]) == s;
      } else {
        HitsAreReal(e, r, steps[1..], t, ip);
        var n: nat :| n <= |steps[1..]| && IsRun(e, r, steps[1..][..n]) && CoveredIn(After(e, r, steps[1..][..n]), ip);
        RunExtends(e, s, steps, n, ip);
      }
    }
  }

  lemma RunExtends(e: Env, s: State, steps: seq<Step>, n: nat, ip: Addr)
    requires WellFormed(s) && steps != [] && Enabled(e, s, steps[0]) && n <= |steps| - 1
    requires var r := Apply(e, s, steps[0]);
      IsRun(e, r, steps[1..][..n]) && CoveredIn(After(e, r, steps[1..][..n]), ip)
    ensures IsRun(e, s, steps[..n + 1]) && CoveredIn(After(e, s, steps[..n + 1]), ip)
  {
    assert steps[..n + 1][1..] == steps[1..][..n];
  }

  lemma {:induction false} FoundStays(e: Env, s: State, steps: seq<Step>, t: nat)
    requires WellFormed(s) && IsRun(e, s, steps) && t < |s.threads| && s.threads[t].Found?
    requires forall i :: 0 <= i < |steps| ==> steps[i] != Return(t)
    ensures After(e, s, steps).threads[t] == s.threads[t]
    decreases steps
  {
    if steps != [] { FoundStays(e, Apply(e, s, steps[0]), steps[1..], t); }
  }

  ghost predicate CoveredIn(s: State, ip: Addr)
    requires WellFormed(s)
  {
    exists k :: k in s.linked && k.Matches(ip)
  }

  // ---------------------------------------------------------------- what fails

  /** A fresh table with three idle threads. */
  ghost function Fresh(): (s: State)
    ensures Init(s) && |s.threads| == 3
  {
    State({}, seq(LAYERS, _ => 0), {}, 0, [Idle, Idle, Idle])
  }

  /** A run given by the states it goes through. */
  lemma {:induction false} RunThrough(e: Env, states: seq<State>, steps: seq<Step>)
    requires |states| == |steps| + 1 && forall i :: 0 <= i < |states| ==> WellFormed(states[i])
    requires forall i :: 0 <= i < |steps| ==>
               Enabled(e, states[i], steps[i]) && Apply(e, states[i], steps[i]) == states[i + 1]
    ensures IsRun(e, states[0], steps) && After(e, states[0], steps) == states[|steps|]
    decreases steps
  {
    if steps != [] {
      assert states[1..][0] == states[1];
      RunThrough(e, states[1..], steps[1..]);
    }
  }

  lemma {:induction false} RunCons(e: Env, s: State, step: Step, steps: seq<Step>)
    requires WellFormed(s) && Enabled(e, s, step) && IsRun(e, Apply(e, s, step), steps)
    ensures IsRun(e, s, [step] + steps)
    ensures After(e, s, [step] + steps) == After(e, Apply(e, s, step), steps)
  {
    assert ([step] + steps)[1..] == steps;
  }

  lemma InFlightOfThree(s: State)
    requires |s.threads| == 3
    ensures InFlight(s) == InsertsOf()(s.threads[0]) + InsertsOf()(s.threads[1]) + InsertsOf()(s.threads[2])
  {
    assert s.threads[..2][..1][..0] == [];
    assert Sum(s.threads[..2][..1], InsertsOf()) == InsertsOf()(s.threads[0]);
    assert Sum(s.threads[..2], InsertsOf()) == InsertsOf()(s.threads[0]) + InsertsOf()(s.threads[1]);
  }

  /** Thread 0 has linked and not marked; thread 1 has unlinked and released its entry: the count is -1. */
  ghost function Overdrawn(l: nat): State
    requires l < LAYERS
  {
    Fresh().(count := Fresh().count[l := -1], threads := [MustMark(l), Idle, Idle])
  }

  lemma {:induction false} RunHead(e: Env, s: State, steps: seq<Step>)
    requires WellFormed(s) && IsRun(e, s, steps) && steps != []
    ensures Enabled(e, s, steps[0])
    ensures var r := Apply(e, s, steps[0]); IsRun(e, r, steps[1..]) && After(e, s, steps) == After(e, r, steps[1..])
  {
  }

  lemma {:induction false} RunConcat(e: Env, s: State, a: seq<Step>, mid: State, b: seq<Step>)
    requires WellFormed(s) && IsRun(e, s, a) && After(e, s, a) == mid && IsRun(e, mid, b)
    ensures IsRun(e, s, a + b) && After(e, s, a + b) == After(e, mid, b)
    decreases a
  {
    if a == [] {
      assert a + b == b;
    } else {
      RunHead(e, s, a);
      RunConcat(e, Apply(e, s, a[0]), a[1..], mid, b);
      ConcatCons(e, s, a, b);
    }
  }

  lemma {:induction false} ConcatCons(e: Env, s: State, a: seq<Step>, b: seq<Step>)
    requires WellFormed(s) && a != [] && Enabled(e, s, a[0]) && IsRun(e, Apply(e, s, a[0]), a[1..] + b)
    ensures IsRun(e, s, a + b) && After(e, s, a + b) == After(e, Apply(e, s, a[0]), a[1..] + b)
  {
    RunCons(e, s, a[0], a[1..] + b);
    assert [a[0]] + (a[1..] + b) == a + b;
  }

  /** Thread 0 has linked `k` and not marked its layer yet. */
  ghost function Unmarked(k: Key): State
    requires k.Valid()
  {
    Fresh().(linked := {k}, banCount := 1, threads := [MustMark(LayerOf(k)), Idle, Idle])
  }

  lemma ReachUnmarked(e: Env, k: Key)
    requires k.Valid() && e.max >= 1 && e.inserts >= 1
    ensures var steps := [Check(0, k), Link(0)];
      IsRun(e, Fresh(), steps) && After(e, Fresh(), steps) == Unmarked(k)
  {
    var s0 := Fresh();
    var s1 := s0.(threads := [Checked(k), Idle, Idle]);
    InFlightOfThree(s0);
    assert Apply(e, s0, Check(0, k)) == s1;
    assert Apply(e, s1, Link(0)) == Unmarked(k);
    RunThrough(e, [s0, s1, Unmarked(k)], [Check(0, k), Link(0)]);
  }

  lemma RemoveUnmarked(e: Env, k: Key)
    requires k.Valid()
    ensures var steps := [Unlink(1, {k}), Release(1)];
      IsRun(e, Unmarked(k), steps) && After(e, Unmarked(k), steps) == Overdrawn(LayerOf(k))
  {
    UnlinkUnmarked(e, k);
    ReleaseUnlinked(e, LayerOf(k));
    RunThrough(e, [Unmarked(k), Unlinked(LayerOf(k)), Overdrawn(LayerOf(k))], [Unlink(1, {k}), Release(1)]);
  }

  /** Then thread 1 has unlinked the entry and not released its layer yet. */
  ghost function Unlinked(l: nat): State
    requires l < LAYERS
  {
    Fresh().(threads := [MustMark(l), MustRelease(l, 1), Idle])
  }

  lemma UnlinkUnmarked(e: Env, k: Key)
    requires k.Valid()
    ensures Enabled(e, Unmarked(k), Unlink(1, {k}))
    ensures Apply(e, Unmarked(k), Unlink(1, {k})) == Unlinked(LayerOf(k))
  {
  }

  lemma ReleaseUnlinked(e: Env, l: nat)
    requires l < LAYERS
    ensures Enabled(e, Unlinked(l), Release(1)) && Apply(e, Unlinked(l), Release(1)) == Overdrawn(l)
  {
  }

  lemma ReachOverdrawn(e: Env, k: Key)
    requires k.Valid() && e.max >= 1 && e.inserts >= 1
    ensures var steps := [Check(0, k), Link(0)] + [Unlink(1, {k}), Release(1)];
      IsRun(e, Fresh(), steps) && After(e, Fresh(), steps) == Overdrawn(LayerOf(k))
  {
    ReachUnmarked(e, k);
    RemoveUnmarked(e, k);
    RunConcat(e, Fresh(), [Check(0, k), Link(0)], Unmarked(k), [Unlink(1, {k}), Release(1)]);
  }

  function Tests(t: nat, n: nat): seq<Step> { if n == 0 then [] else [Test(t)] + Tests(t, n - 1) }

  /** With no bit set a lookup tests every layer and answers "not banned". */
  lemma {:induction false} NoBitNoHit(e: Env, s: State, t: nat, ip: Addr, c: nat)
    requires WellFormed(s) && s.used == {} && t < |s.threads|
    requires s.threads[t] == Testing(ip, c) && c <= MaxPrefix(ip.Af()) + 1
    ensures var steps := Tests(t, MaxPrefix(ip.Af()) + 2 - c);
      IsRun(e, s, steps) && After(e, s, steps) == s.(threads := s.threads[t := Found(ip, false)])
    decreases MaxPrefix(ip.Af()) + 1 - c
  {
    var r := Apply(e, s, Test(t));
    var rest := Tests(t, MaxPrefix(ip.Af()) + 1 - c);
    if c <= MaxPrefix(ip.Af()) {
      assert r == s.(threads := s.threads[t := Testing(ip, c + 1)]);
      NoBitNoHit(e, r, t, ip, c + 1);
    }
    RunCons(e, s, Test(t), rest);
  }

  /** From `Overdrawn`, thread 2 links `k` again and marks, which only brings the count back to 0. */
  lemma MarkWithoutBit(e: Env, k: Key)
    requires k.Valid() && e.max >= 1 && e.inserts >= 1
    ensures var l, steps := LayerOf(k), [Check(2, k), Link(2), Mark(2)];
      IsRun(e, Overdrawn(l), steps) && After(e, Overdrawn(l), steps) == Unmarked(k)
  {
    var l := LayerOf(k);
    var s4 := Overdrawn(l);
    var s5 := s4.(threads := [MustMark(l), Idle, Checked(k)]);
    var s6 := s4.(linked := {k}, banCount := 1, threads := [MustMark(l), Idle, MustMark(l)]);
    InFlightOfThree(s4);
    assert Apply(e, s4, Check(2, k)) == s5;
    assert Apply(e, s5, Link(2)) == s6;
    assert Apply(e, s6, Mark(2)) == Unmarked(k) by { assert Fresh().count[l := -1][l := 0] == Fresh().count; }
    RunThrough(e, [s4, s5, s6, Unmarked(k)], [Check(2, k), Link(2), Mark(2)]);
  }

  /** Thread 1 looks `ip` up in that state. */
  lemma LookupWithoutBit(e: Env, k: Key, ip: Addr)
    requires k.Valid()
    ensures var steps := [BeginLookup(1, ip)] + Tests(1, MaxPrefix(ip.Af()) + 2);
      && IsRun(e, Unmarked(k), steps)
      && After(e, Unmarked(k), steps) == Unmarked(k).(threads := [MustMark(LayerOf(k)), Found(ip, false), Idle])
  {
    var r := Unmarked(k).(threads := [MustMark(LayerOf(k)), Testing(ip, 0), Idle]);
    assert Apply(e, Unmarked(k), BeginLookup(1, ip)) == r;
    NoBitNoHit(e, r, 1, ip, 0);
    assert r.threads[1 := Found(ip, false)] == [MustMark(LayerOf(k)), Found(ip, false), Idle];
    RunCons(e, Unmarked(k), BeginLookup(1, ip), Tests(1, MaxPrefix(ip.Af()) + 2));
  }

  function Overdraw(k: Key): seq<Step> { [Check(0, k), Link(0)] + [Unlink(1, {k}), Release(1)] }

  function Blind(k: Key, ip: Addr): seq<Step> {
    Overdraw(k) + ([Check(2, k), Link(2), Mark(2)]
      + ([BeginLookup(1, ip)] + Tests(1, MaxPrefix(ip.Af()) + 2)))
  }

  /**
  "A marked live entry keeps its layer visible" is false. In this run from a fresh table the insert of
  `k` by thread 2 has linked, marked and returned and nothing unlinks it, yet a lookup that starts
  after that, of any address `k` covers, answers "not banned". Only thread 0's late mark ends that.
  */
  lemma MarkedEntryInvisible(e: Env, k: Key, ip: Addr)
    requires k.Valid() && k.Matches(ip) && e.max >= 1 && e.inserts >= 1
    ensures IsRun(e, Fresh(), Blind(k, ip))
    ensures var r := After(e, Fresh(), Blind(k, ip));
      k in r.linked && r.threads[2].Idle? && r.threads[1] == Found(ip, false)
  {
    ReachOverdrawn(e, k);
    MarkWithoutBit(e, k);
    LookupWithoutBit(e, k, ip);
    var look := [BeginLookup(1, ip)] + Tests(1, MaxPrefix(ip.Af()) + 2);
    RunConcat(e, Overdrawn(LayerOf(k)), [Check(2, k), Link(2), Mark(2)], Unmarked(k), look);
    RunConcat(e, Fresh(), Overdraw(k), Overdrawn(LayerOf(k)), [Check(2, k), Link(2), Mark(2)] + look);
  }

  /** Idle threads of `s` up to `i` have passed the checks of the first `i` keys. */
  ghost function Raced(s: State, ks: seq<Key>, i: nat): (r: State)
    requires WellFormed(s) && i <= |ks| && forall j :: 0 <= j < i ==> ks[j].Valid()
    ensures WellFormed(r)
  {
    s.(threads := seq(|s.threads|, t requires 0 <= t < |s.threads| => if t < i then Checked(ks[t]) else s.threads[t]))
  }

  function Checks(ks: seq<Key>, i: nat): seq<Step>
    requires i <= |ks|
    decreases |ks| - i
  {
    if i == |ks| then [] else [Check(i, ks[i])] + Checks(ks, i + 1)
  }

  function Links(i: nat, n: nat): seq<Step>
    requires i <= n
    decreases n - i
  {
    if i == n then [] else [Link(i)] + Links(i + 1, n)
  }

  lemma {:induction false} CheckedFirst(threads: seq<Pc>, i: nat)
    requires forall t :: 0 <= t < |threads| ==> (threads[t].Checked? <==> t < i)
    ensures Sum(threads, InsertsOf()) == if i <= |threads| then i else |threads|
  {
    if threads != [] { CheckedFirst(threads[..|threads| - 1], i); }
  }

  /** A quiet table one short of its limit, and absent keys of different buckets, one for each thread. */
  ghost predicate OneShort(e: Env, s: State, ks: seq<Key>) {
    && Inv(e, s) && s.banCount == e.max - 1 && |ks| == e.inserts <= |s.threads|
    && (forall t :: 0 <= t < |s.threads| ==> s.threads[t].Idle?)
    && (forall i :: 0 <= i < |ks| ==> ks[i].Valid() && ks[i] !in s.linked)
    && (forall i, j :: 0 <= i < j < |ks| ==> SlotOf(e, ks[i]) != SlotOf(e, ks[j]))
  }

  lemma OneChecks(e: Env, s: State, ks: seq<Key>, i: nat)
    requires OneShort(e, s, ks) && i < |ks|
    ensures Enabled(e, Raced(s, ks, i), Check(i, ks[i]))
    ensures Apply(e, Raced(s, ks, i), Check(i, ks[i])) == Raced(s, ks, i + 1)
  {
    var r := Raced(s, ks, i);
    CheckedFirst(r.threads, i);
    assert r.threads[i := Checked(ks[i])] == Raced(s, ks, i + 1).threads;
  }

  lemma {:induction false} AllCheck(e: Env, s: State, ks: seq<Key>, i: nat)
    requires OneShort(e, s, ks) && i <= |ks|
    ensures IsRun(e, Raced(s, ks, i), Checks(ks, i)) && After(e, Raced(s, ks, i), Checks(ks, i)) == Raced(s, ks, |ks|)
    decreases |ks| - i
  {
    if i < |ks| {
      OneChecks(e, s, ks, i);
      AllCheck(e, s, ks, i + 1);
      RunCons(e, Raced(s, ks, i), Check(i, ks[i]), Checks(ks, i + 1));
    }
  }

  lemma {:induction false} AllLink(e: Env, s: State, i: nat, n: nat)
    requires WellFormed(s) && i <= n <= |s.threads| && forall t :: i <= t < n ==> s.threads[t].Checked?
    ensures IsRun(e, s, Links(i, n)) && After(e, s, Links(i, n)).banCount == s.banCount + n - i
    decreases n - i
  {
    if i < n {
      AllLink(e, Apply(e, s, Link(i)), i + 1, n);
      RunCons(e, s, Link(i), Links(i + 1, n));
    }
  }

  /** The capacity check is not atomic with the link: with K inserts in flight, K - 1 too many can get in. */
  lemma CapacityOvershoots(e: Env, s: State, ks: seq<Key>)
    requires OneShort(e, s, ks)
    ensures var steps := Checks(ks, 0) + Links(0, |ks|);
      IsRun(e, s, steps) && |After(e, s, steps).linked| == e.max + e.inserts - 1
  {
    assert Raced(s, ks, 0) == s;
    AllCheck(e, s, ks, 0);
    AllLink(e, Raced(s, ks, |ks|), 0, |ks|);
    RunConcat(e, s, Checks(ks, 0), Raced(s, ks, |ks|), Links(0, |ks|));
    InvRun(e, s, Checks(ks, 0) + Links(0, |ks|));
  }
}
