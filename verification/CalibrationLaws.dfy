/** The algebra of calibration: order, duplication, composition, growth and merging of causes. */
module CalibrationLaws {
  import opened Ordering
  import opened Calibration
  import opened SignalMerge

  // ---------- only the set of facts matters ----------

  ghost predicate SameFacts(a: seq<Signal>, b: seq<Signal>) {
    && (forall x :: x in a ==> Carries(b, FactsOf(x)))
    && (forall x :: x in b ==> Carries(a, FactsOf(x)))
  }

  ghost predicate ReadsOnlyFacts(sel: Signal -> bool, f: Signal -> int) {
    forall u, x :: FactsOf(u) == FactsOf(x) ==> sel(u) == sel(x) && f(u) == f(x)
  }

  lemma {:induction false} PeakReadsFacts(a: seq<Signal>, b: seq<Signal>, sel: Signal -> bool, f: Signal -> int)
    requires SameFacts(a, b) && ReadsOnlyFacts(sel, f)
    ensures Peak(a, sel, f) == Peak(b, sel, f)
  {
    FactsCovered(a, b, sel, f);
    FactsCovered(b, a, sel, f);
    PeakOfCovered(a, sel, b, sel, f);
    PeakOfCovered(b, sel, a, sel, f);
  }

  lemma {:induction false} FactsCovered(a: seq<Signal>, b: seq<Signal>, sel: Signal -> bool, f: Signal -> int)
    requires ReadsOnlyFacts(sel, f) && forall x :: x in a ==> Carries(b, FactsOf(x))
    ensures Covers(a, sel, b, sel, f)
  {
    hide FactsOf, Peak;
    forall x | x in a && sel(x) ensures exists y :: y in b && sel(y) && f(y) >= f(x) {
      assert Carries(b, FactsOf(x));
      var y :| y in b && FactsOf(y) == FactsOf(x);
      assert sel(y) && f(y) == f(x);
    }
  }

  lemma {:induction false} NamesReadFacts(a: seq<Signal>, b: seq<Signal>, c: string)
    requires forall x :: x in a ==> Carries(b, FactsOf(x))
    ensures Causes(a) <= Causes(b) && KindsOf(a, c) <= KindsOf(b, c) && ActionsOf(a, c) <= ActionsOf(b, c)
  {
    forall x | x in a
      ensures x.cause in Causes(b)
      ensures x.cause == c ==> x.kind in KindsOf(b, c) && (x.action != "" ==> x.action in ActionsOf(b, c))
    {
      assert Carries(b, FactsOf(x));
      var y :| y in b && FactsOf(y) == FactsOf(x);
    }
  }

  lemma {:induction false} MergedReadsFacts(t: Table, a: seq<Signal>, b: seq<Signal>, c: string)
    requires SameFacts(a, b)
    ensures MergedOf(t, a, c) == MergedOf(t, b, c)
    ensures EntropyOf(t, a)(c) == EntropyOf(t, b)(c) && IntentPeak(t, a)(c) == IntentPeak(t, b)(c)
  {
    hide Peak;
    forall d ensures Peak(a, InCause(c), DeltaAt(t, d)) == Peak(b, InCause(c), DeltaAt(t, d)) {
      PeakReadsFacts(a, b, InCause(c), DeltaAt(t, d));
    }
    PeakReadsFacts(a, b, InCause(c), IntentOf(t));
    PeakReadsFacts(a, b, InCause(c), FloorOf(t));
    PeakReadsFacts(a, b, InCause(c), SeverityOf());
    NamesReadFacts(a, b, c);
    NamesReadFacts(b, a, c);
    assert KindsOf(a, c) == KindsOf(b, c) && ActionsOf(a, c) == ActionsOf(b, c);
    assert (map d | d in DIMENSIONS :: Peak(a, InCause(c), DeltaAt(t, d)))
        == (map d | d in DIMENSIONS :: Peak(b, InCause(c), DeltaAt(t, d)));
  }

  lemma {:induction false} SumsAgree(names: set<string>, g: string -> int, h: string -> int)
    requires forall x :: x in names ==> g(x) == h(x)
    ensures SumOver(names, g) == SumOver(names, h)
  {
    SumBounds(names, g, h);
    SumBounds(names, h, g);
  }

  lemma {:induction false} TotalsReadFacts(t: Table, a: seq<Signal>, b: seq<Signal>, baseEntropy: int, baseIntent: int)
    requires SameFacts(a, b)
    ensures TotalsOf(t, a, baseEntropy, baseIntent) == TotalsOf(t, b, baseEntropy, baseIntent)
  {
    hide Peak, MergedOf, EntropyOf, IntentPeak;
    NamesReadFacts(a, b, "");
    NamesReadFacts(b, a, "");
    assert Causes(a) == Causes(b);
    forall c ensures MergedOf(t, a, c) == MergedOf(t, b, c)
      && EntropyOf(t, a)(c) == EntropyOf(t, b)(c) && IntentPeak(t, a)(c) == IntentPeak(t, b)(c)
    {
      MergedReadsFacts(t, a, b, c);
    }
    SumsAgree(Causes(a), EntropyOf(t, a), EntropyOf(t, b));
    SumsAgree(Causes(a), IntentPeak(t, a), IntentPeak(t, b));
    PeakReadsFacts(a, b, Anyone(), FloorOf(t));
    assert MergedList(t, a, Listing(Causes(a))) == MergedList(t, b, Listing(Causes(b)));
  }

  lemma {:induction false} ConflictReadsFacts(a: seq<Signal>, b: seq<Signal>)
    requires (forall x :: x in a ==> Carries(b, FactsOf(x))) && Conflicted(a)
    ensures Conflicted(b)
  {
    var x, y :| x in a && y in a && Clash(x, y);
    assert Carries(b, FactsOf(x)) && Carries(b, FactsOf(y));
    var u :| u in b && FactsOf(u) == FactsOf(x);
    var v :| v in b && FactsOf(v) == FactsOf(y);
    assert Clash(u, v);
  }

  /** Accepted batches with the same set of facts calibrate alike: order, repetition and
      everything else in the envelopes are irrelevant. */
  lemma {:induction false} CalibrationReadsOnlyFacts(t: Table, registry: map<string, string>, a: seq<Signal>, b: seq<Signal>,
                                                     baseEntropy: int, baseIntent: int)
    requires AllAccepted(registry, a) && AllAccepted(registry, b) && SameFacts(a, b)
    ensures Calibrated(t, registry, a, baseEntropy, baseIntent) == Calibrated(t, registry, b, baseEntropy, baseIntent)
  {
    if Conflicted(a) { ConflictReadsFacts(a, b); }
    if Conflicted(b) { ConflictReadsFacts(b, a); }
    TotalsReadFacts(t, a, b, baseEntropy, baseIntent);
  }

  lemma {:induction false} MembersCarry(a: seq<Signal>, b: seq<Signal>)
    requires forall x :: x in a ==> x in b
    ensures forall x :: x in a ==> Carries(b, FactsOf(x))
  {}

  /** Permuting the signals changes neither the outcome, nor the kind of failure, nor any result. */
  lemma {:induction false} CalibrationIgnoresOrder(t: Table, registry: map<string, string>, a: seq<Signal>, b: seq<Signal>,
                                                   baseEntropy: int, baseIntent: int)
    requires multiset(a) == multiset(b)
    ensures Calibrated(t, registry, a, baseEntropy, baseIntent) == Calibrated(t, registry, b, baseEntropy, baseIntent)
  {
    forall x ensures x in a <==> x in b { assert x in multiset(a) <==> x in multiset(b); }
    MembersCarry(a, b);
    MembersCarry(b, a);
    if AllAccepted(registry, a) {
      CalibrationReadsOnlyFacts(t, registry, a, b, baseEntropy, baseIntent);
    }
  }

  /** Adding an accepted duplicate that agrees with a signal already there changes nothing. */
  lemma {:induction false} AgreeingDuplicateIsNeutral(t: Table, registry: map<string, string>, s: seq<Signal>, x: Signal,
                                                      duplicate: Signal, baseEntropy: int, baseIntent: int)
    requires x in s && Accepted(registry, duplicate) && FactsOf(duplicate) == FactsOf(x)
    ensures Calibrated(t, registry, s + [duplicate], baseEntropy, baseIntent)
         == Calibrated(t, registry, s, baseEntropy, baseIntent)
  {
    hide FactsOf;
    var more := s + [duplicate];
    MembersCarry(s, more);
    MembersCarry(s, s);
    forall y | y in more ensures Carries(s, FactsOf(y)) {
      if y !in s { assert y == duplicate; }
    }
    if AllAccepted(registry, s) {
      assert AllAccepted(registry, more);
      CalibrationReadsOnlyFacts(t, registry, more, s, baseEntropy, baseIntent);
    } else {
      var y :| y in s && !Accepted(registry, y);
      assert y in more;
    }
  }

  // ---------- independent causes compose ----------

  lemma {:induction false} PeakOfPart(a: seq<Signal>, b: seq<Signal>, c: string, f: Signal -> int)
    requires c !in Causes(b)
    ensures Peak(a + b, InCause(c), f) == Peak(a, InCause(c), f) == Peak(b + a, InCause(c), f)
  {
    forall x | x in b ensures x.cause != c { assert x.cause in Causes(b); }
    CoversBySubset(a + b, a, InCause(c), f);
    CoversBySubset(a, a + b, InCause(c), f);
    CoversBySubset(b + a, a, InCause(c), f);
    CoversBySubset(a, b + a, InCause(c), f);
  }

  lemma {:induction false} CoversBySubset(a: seq<Signal>, b: seq<Signal>, sel: Signal -> bool, f: Signal -> int)
    requires forall x :: x in a && sel(x) ==> x in b
    ensures Peak(a, sel, f) <= Peak(b, sel, f)
  {
    assert Covers(a, sel, b, sel, f);
    PeakOfCovered(a, sel, b, sel, f);
  }

  lemma {:induction false} CausesOfConcat(a: seq<Signal>, b: seq<Signal>)
    ensures Causes(a + b) == Causes(a) + Causes(b)
  {
    forall c ensures c in Causes(a + b) <==> c in Causes(a) + Causes(b) {
      if x :| x in a && x.cause == c { assert x in a + b; }
      if x :| x in b && x.cause == c { assert x in a + b; }
      if x :| x in a + b && x.cause == c { assert x in a || x in b; }
    }
  }

  lemma {:induction false} MergedOfPart(t: Table, a: seq<Signal>, b: seq<Signal>, c: string)
    requires c !in Causes(b)
    ensures MergedOf(t, a + b, c) == MergedOf(t, a, c) == MergedOf(t, b + a, c)
    ensures EntropyOf(t, a + b)(c) == EntropyOf(t, a)(c) == EntropyOf(t, b + a)(c)
    ensures IntentPeak(t, a + b)(c) == IntentPeak(t, a)(c) == IntentPeak(t, b + a)(c)
  {
    hide Peak;
    forall f: Signal -> int ensures Peak(a + b, InCause(c), f) == Peak(a, InCause(c), f) == Peak(b + a, InCause(c), f) {
      PeakOfPart(a, b, c, f);
    }
    NamesOfPart(a, b, c);
  }

  lemma {:induction false} NamesOfPart(a: seq<Signal>, b: seq<Signal>, c: string)
    requires c !in Causes(b)
    ensures KindsOf(a + b, c) == KindsOf(a, c) == KindsOf(b + a, c)
    ensures ActionsOf(a + b, c) == ActionsOf(a, c) == ActionsOf(b + a, c)
  {
    forall x: Signal ensures x in b ==> x.cause != c { if x in b { assert x.cause in Causes(b); } }
    assert forall x: Signal :: x.cause == c ==> ((x in a + b <==> x in a) && (x in b + a <==> x in a));
  }

  lemma {:induction false} FloorOfConcat(t: Table, a: seq<Signal>, b: seq<Signal>)
    ensures Peak(a + b, Anyone(), FloorOf(t)) == Max(Peak(a, Anyone(), FloorOf(t)), Peak(b, Anyone(), FloorOf(t)))
  {
    PeakIsPeak(a, Anyone(), FloorOf(t));
    PeakIsPeak(b, Anyone(), FloorOf(t));
    var v := Max(Peak(a, Anyone(), FloorOf(t)), Peak(b, Anyone(), FloorOf(t)));
    if v != 0 && v == Peak(a, Anyone(), FloorOf(t)) {
      var x :| x in a && Anyone()(x) && FloorOf(t)(x) == v;
      assert x in a + b;
    } else if v != 0 {
      var x :| x in b && Anyone()(x) && FloorOf(t)(x) == v;
      assert x in a + b;
    }
    PeakIsUnique(v, a + b, Anyone(), FloorOf(t));
  }

  lemma {:induction false} FloorLevelIsBounded(t: Table, s: seq<Signal>, sel: Signal -> bool)
    ensures 0 <= Peak(s, sel, FloorOf(t)) <= 4
  {
    PeakIsPeak(s, sel, FloorOf(t));
  }

  lemma {:induction false} PartsAreNonNegative(t: Table, s: seq<Signal>, c: string)
    ensures 0 <= EntropyOf(t, s)(c) <= CAUSE_CAP && 0 <= IntentPeak(t, s)(c)
  {
    forall f: Signal -> int ensures Peak(s, InCause(c), f) >= 0 { PeakIsPeak(s, InCause(c), f); }
  }

  lemma {:induction false} SumsOfParts(t: Table, a: seq<Signal>, b: seq<Signal>)
    requires Causes(a) !! Causes(b)
    ensures SumOver(Causes(a + b), EntropyOf(t, a + b))
         == SumOver(Causes(a), EntropyOf(t, a)) + SumOver(Causes(b), EntropyOf(t, b))
    ensures SumOver(Causes(a + b), IntentPeak(t, a + b))
         == SumOver(Causes(a), IntentPeak(t, a)) + SumOver(Causes(b), IntentPeak(t, b))
  {
    hide EntropyOf, IntentPeak, MergedOf;
    CausesOfConcat(a, b);
    SumUnion(Causes(a), Causes(b), EntropyOf(t, a + b));
    SumUnion(Causes(a), Causes(b), IntentPeak(t, a + b));
    forall c | c in Causes(a)
      ensures EntropyOf(t, a + b)(c) == EntropyOf(t, a)(c) && IntentPeak(t, a + b)(c) == IntentPeak(t, a)(c)
    {
      MergedOfPart(t, a, b, c);
    }
    forall c | c in Causes(b)
      ensures EntropyOf(t, a + b)(c) == EntropyOf(t, b)(c) && IntentPeak(t, a + b)(c) == IntentPeak(t, b)(c)
    {
      MergedOfPart(t, b, a, c);
    }
    SumsAgree(Causes(a), EntropyOf(t, a + b), EntropyOf(t, a));
    SumsAgree(Causes(b), EntropyOf(t, a + b), EntropyOf(t, b));
    SumsAgree(Causes(a), IntentPeak(t, a + b), IntentPeak(t, a));
    SumsAgree(Causes(b), IntentPeak(t, a + b), IntentPeak(t, b));
  }

  lemma {:induction false} SumIsNonNegative(names: set<string>, g: string -> int)
    requires forall x :: x in names ==> g(x) >= 0
    ensures SumOver(names, g) >= 0
  {
    SumOfConstant(names, 0);
    SumBounds(names, (x: string) => 0, g);
  }

  lemma {:induction false} NoClashAcross(a: seq<Signal>, b: seq<Signal>, x: Signal, y: Signal)
    requires Causes(a) !! Causes(b) && x in a && y in b
    ensures !Clash(x, y) && !Clash(y, x)
  {
    assert x.cause in Causes(a) && y.cause in Causes(b);
  }

  lemma {:induction false} AcceptanceOfConcat(t: Table, registry: map<string, string>, a: seq<Signal>, b: seq<Signal>)
    requires Causes(a) !! Causes(b)
    ensures MergeResult(t, registry, a + b).Ok? <==> MergeResult(t, registry, a).Ok? && MergeResult(t, registry, b).Ok?
  {
    hide Clash, Causes, Accepted;
    assert forall x :: x in a + b <==> x in a || x in b;
    forall x, y | x in a && y in b ensures !Clash(x, y) && !Clash(y, x) {
      NoClashAcross(a, b, x, y);
    }
  }

  /** Calibrating two batches with different causes together equals calibrating the second
      on top of the first's totals, in spite of both caps. */
  lemma {:induction false} IndependentBatchesCompose(t: Table, registry: map<string, string>, a: seq<Signal>, b: seq<Signal>,
                                                     baseEntropy: int, baseIntent: int)
    requires Causes(a) !! Causes(b)
    ensures Calibrated(t, registry, a + b, baseEntropy, baseIntent).Ok?
       <==> Calibrated(t, registry, a, baseEntropy, baseIntent).Ok? && Calibrated(t, registry, b, 0, 0).Ok?
    ensures Calibrated(t, registry, a + b, baseEntropy, baseIntent).Ok? ==>
      var first := Calibrated(t, registry, a, baseEntropy, baseIntent).value;
      var second := TotalsOf(t, b, first.entropy, first.intent);
      var whole := Calibrated(t, registry, a + b, baseEntropy, baseIntent).value;
      && Calibrated(t, registry, b, first.entropy, first.intent) == Ok(second)
      && whole.entropy == second.entropy && whole.intent == second.intent
      && whole.floor == StrongestFloor(first.floor, second.floor)
  {
    hide Peak, SumOver, EntropyOf, IntentPeak, MergedOf, MergedList, Conflicted;
    AcceptanceOfConcat(t, registry, a, b);
    SumsOfParts(t, a, b);
    forall c ensures EntropyOf(t, b)(c) >= 0 { PartsAreNonNegative(t, b, c); }
    SumIsNonNegative(Causes(b), EntropyOf(t, b));
    FloorOfConcat(t, a, b);
    FloorLevelIsBounded(t, a, Anyone());
    FloorLevelIsBounded(t, b, Anyone());
    StrongestAt(Peak(a, Anyone(), FloorOf(t)), Peak(b, Anyone(), FloorOf(t)));
  }

  /** The per-cause records of independent batches are the records of the two batches. */
  lemma {:induction false} IndependentRecordsCompose(t: Table, a: seq<Signal>, b: seq<Signal>, m: Merged)
    requires Causes(a) !! Causes(b)
    ensures m in MergedList(t, a + b, Listing(Causes(a + b)))
       <==> m in MergedList(t, a, Listing(Causes(a))) || m in MergedList(t, b, Listing(Causes(b)))
  {
    hide MergedOf;
    CausesOfConcat(a, b);
    RecordOfCause(t, a, m);
    RecordOfCause(t, b, m);
    RecordOfCause(t, a + b, m);
    forall c ensures c !in Causes(b) ==> MergedOf(t, a + b, c) == MergedOf(t, a, c) { if c !in Causes(b) { MergedOfPart(t, a, b, c); } }
    forall c ensures c !in Causes(a) ==> MergedOf(t, a + b, c) == MergedOf(t, b, c) { if c !in Causes(a) { MergedOfPart(t, b, a, c); } }
  }

  lemma {:induction false} RecordOfCause(t: Table, s: seq<Signal>, m: Merged)
    ensures m in MergedList(t, s, Listing(Causes(s))) <==> exists c :: c in Causes(s) && MergedOf(t, s, c) == m
  {
    hide MergedOf;
    var l := Listing(Causes(s));
    if i :| 0 <= i < |l| && MergedList(t, s, l)[i] == m {
      assert l[i] in Elems(l);
    }
    if c :| c in Causes(s) && MergedOf(t, s, c) == m {
      assert c in Elems(l);
      var i :| 0 <= i < |l| && l[i] == c;
      assert MergedList(t, s, l)[i] == m;
    }
  }

  lemma StrongestAt(a: int, b: int)
    requires 0 <= a <= 4 && 0 <= b <= 4
    ensures StrongestFloor(FloorAt(a), FloorAt(b)) == FloorAt(Max(a, b))
  {}

  // ---------- growth and bounds ----------

  lemma {:induction false} PartsGrow(t: Table, a: seq<Signal>, b: seq<Signal>, c: string)
    requires forall x :: x in a ==> x in b
    ensures EntropyOf(t, a)(c) <= EntropyOf(t, b)(c) && IntentPeak(t, a)(c) <= IntentPeak(t, b)(c)
  {
    hide Peak;
    forall f: Signal -> int ensures Peak(a, InCause(c), f) <= Peak(b, InCause(c), f) {
      CoversBySubset(a, b, InCause(c), f);
    }
  }

  lemma {:induction false} SumGrows(small: set<string>, big: set<string>, g: string -> int, h: string -> int)
    requires small <= big
    requires forall x :: x in big ==> g(x) <= h(x) && 0 <= h(x)
    ensures SumOver(small, g) <= SumOver(big, h)
  {
    SumBounds(small, g, h);
    SumUnion(small, big - small, h);
    assert small + (big - small) == big;
    SumIsNonNegative(big - small, h);
  }

  /** Adding accepted signals never lowers entropy, intent or the floor. */
  lemma {:induction false} CalibrationIsMonotone(t: Table, registry: map<string, string>, a: seq<Signal>, b: seq<Signal>,
                                                 baseEntropy: int, baseIntent: int)
    requires forall x :: x in a ==> x in b
    requires Calibrated(t, registry, b, baseEntropy, baseIntent).Ok?
    ensures Calibrated(t, registry, a, baseEntropy, baseIntent).Ok?
    ensures var less := Calibrated(t, registry, a, baseEntropy, baseIntent).value;
            var more := Calibrated(t, registry, b, baseEntropy, baseIntent).value;
            && less.entropy <= more.entropy && less.intent <= more.intent && Level(less.floor) <= Level(more.floor)
  {
    hide Peak, SumOver, EntropyOf, IntentPeak, MergedOf, MergedList;
    forall c ensures EntropyOf(t, a)(c) <= EntropyOf(t, b)(c) && IntentPeak(t, a)(c) <= IntentPeak(t, b)(c)
      && 0 <= EntropyOf(t, b)(c) && 0 <= IntentPeak(t, b)(c)
    {
      PartsGrow(t, a, b, c);
      PartsAreNonNegative(t, b, c);
    }
    assert Causes(a) <= Causes(b);
    SumGrows(Causes(a), Causes(b), EntropyOf(t, a), EntropyOf(t, b));
    SumGrows(Causes(a), Causes(b), IntentPeak(t, a), IntentPeak(t, b));
    CoversBySubset(a, b, Anyone(), FloorOf(t));
    FloorLevelIsBounded(t, a, Anyone());
    FloorLevelIsBounded(t, b, Anyone());
  }

  /** Entropy is bounded by the global cap and by two units per cause, and never falls below the capped base. */
  lemma {:induction false} EntropyIsBounded(t: Table, registry: map<string, string>, s: seq<Signal>, baseEntropy: int, baseIntent: int)
    requires Calibrated(t, registry, s, baseEntropy, baseIntent).Ok?
    ensures var totals := Calibrated(t, registry, s, baseEntropy, baseIntent).value;
            && Min(TOTAL_CAP, baseEntropy) <= totals.entropy <= Min(TOTAL_CAP, baseEntropy + CAUSE_CAP * |totals.causes|)
            && |totals.causes| == |Causes(s)|
  {
    hide Peak, EntropyOf, IntentPeak, MergedOf;
    forall c ensures 0 <= EntropyOf(t, s)(c) <= CAUSE_CAP { PartsAreNonNegative(t, s, c); }
    SumIsNonNegative(Causes(s), EntropyOf(t, s));
    SumOfConstant(Causes(s), CAUSE_CAP);
    SumBounds(Causes(s), EntropyOf(t, s), (x: string) => CAUSE_CAP);
    NoDupCardinality(Listing(Causes(s)));
  }

  // ---------- merging two causes ----------

  function Relabel(s: seq<Signal>, from: string, to: string): (r: seq<Signal>)
    ensures |r| == |s| && forall i :: 0 <= i < |s| ==> r[i] == Renamed(s[i], from, to)
  {
    seq(|s|, i requires 0 <= i < |s| => Renamed(s[i], from, to))
  }

  function Renamed(sig: Signal, from: string, to: string): Signal {
    if sig.cause == from then sig.(cause := to) else sig
  }

  /** `f` does not read the cause. */
  ghost predicate CauseFree(f: Signal -> int) {
    forall x: Signal, c: string :: f(x.(cause := c)) == f(x)
  }

  lemma {:induction false} PeakOfRelabel(s: seq<Signal>, from: string, to: string, selNew: Signal -> bool, selOld: Signal -> bool,
                                         f: Signal -> int)
    requires CauseFree(f) && forall x :: selNew(Renamed(x, from, to)) == selOld(x)
    ensures Peak(Relabel(s, from, to), selNew, f) == Peak(s, selOld, f)
  {
    hide Renamed;
    if s != [] {
      var last := |s| - 1;
      PeakOfRelabel(s[..last], from, to, selNew, selOld, f);
      assert Relabel(s, from, to)[..last] == Relabel(s[..last], from, to);
      RenamedKeeps(s[last], from, to, f);
    }
  }

  lemma {:induction false} RenamedKeeps(x: Signal, from: string, to: string, f: Signal -> int)
    requires CauseFree(f)
    ensures f(Renamed(x, from, to)) == f(x)
  {}

  function InEither(a: string, b: string): Signal -> bool { (sig: Signal) => sig.cause == a || sig.cause == b }

  lemma {:induction false} PeakOfEither(s: seq<Signal>, a: string, b: string, f: Signal -> int)
    ensures Peak(s, InEither(a, b), f) == Max(Peak(s, InCause(a), f), Peak(s, InCause(b), f))
  {
    if s != [] {
      PeakOfEither(s[..|s| - 1], a, b, f);
      PeakIsPeak(s[..|s| - 1], InCause(a), f);
      PeakIsPeak(s[..|s| - 1], InCause(b), f);
    }
  }

  /** The merged cause has at most the sum of the two causes it replaces; other causes keep theirs. */
  lemma {:induction false} PartsOfRelabel(t: Table, s: seq<Signal>, from: string, to: string, c: string)
    requires from != to && c != from
    ensures c == to ==> EntropyOf(t, Relabel(s, from, to))(c) <= EntropyOf(t, s)(from) + EntropyOf(t, s)(to)
    ensures c == to ==> IntentPeak(t, Relabel(s, from, to))(c) <= IntentPeak(t, s)(from) + IntentPeak(t, s)(to)
    ensures c != to ==> EntropyOf(t, Relabel(s, from, to))(c) == EntropyOf(t, s)(c)
    ensures c != to ==> IntentPeak(t, Relabel(s, from, to))(c) == IntentPeak(t, s)(c)
  {
    hide Peak, Relabel;
    forall f: Signal -> int | CauseFree(f)
      ensures Peak(Relabel(s, from, to), InCause(c), f)
           == if c == to then Max(Peak(s, InCause(from), f), Peak(s, InCause(to), f)) else Peak(s, InCause(c), f)
      ensures Peak(s, InCause(from), f) >= 0 && Peak(s, InCause(to), f) >= 0
    {
      PeakIsPeak(s, InCause(from), f);
      PeakIsPeak(s, InCause(to), f);
      if c == to {
        PeakOfRelabel(s, from, to, InCause(c), InEither(from, to), f);
        PeakOfEither(s, from, to, f);
      } else {
        PeakOfRelabel(s, from, to, InCause(c), InCause(c), f);
      }
    }
    forall d ensures CauseFree(DeltaAt(t, d)) {}
    assert CauseFree(IntentOf(t));
  }

  lemma {:induction false} AbsentCauseHasNoEffect(t: Table, s: seq<Signal>, c: string)
    requires c !in Causes(s)
    ensures EntropyOf(t, s)(c) == 0 && IntentPeak(t, s)(c) == 0
  {
    forall x | x in s ensures !InCause(c)(x) { assert x.cause in Causes(s); }
    forall f: Signal -> int ensures Peak(s, InCause(c), f) == 0 { PeakIsUnique(0, s, InCause(c), f); }
  }

  lemma {:induction false} CausesOfRelabel(s: seq<Signal>, from: string, to: string)
    requires from in Causes(s)
    ensures Causes(Relabel(s, from, to)) == Causes(s) - {from} + {to}
  {
    var r := Relabel(s, from, to);
    forall c | c in Causes(r) ensures c in Causes(s) - {from} + {to} {
      var y :| y in r && y.cause == c;
      var i :| 0 <= i < |r| && r[i] == y;
      assert s[i] in s;
    }
    forall c | c in Causes(s) - {from} + {to} ensures c in Causes(r) {
      var earlier := if c == to then from else c;
      if earlier in Causes(s) {
        var x :| x in s && x.cause == earlier;
        var i :| 0 <= i < |s| && s[i] == x;
        assert r[i] in r && r[i].cause == c;
      }
    }
  }

  /** Replacing two summands by one that is no larger than both together does not raise a sum. */
  lemma {:induction false} SumMerge(names: set<string>, from: string, to: string, g: string -> int, h: string -> int)
    requires from in names && from != to
    requires to !in names ==> g(to) == 0
    requires h(to) <= g(from) + g(to)
    requires forall x :: x in names && x != from && x != to ==> h(x) == g(x)
    ensures SumOver(names - {from} + {to}, h) <= SumOver(names, g)
  {
    var others := names - {from} - {to};
    SumRemove(names, g, from);
    SumRemove(names - {from} + {to}, h, to);
    assert names - {from} + {to} - {to} == others;
    SumsAgree(others, g, h);
    if to in names {
      SumRemove(names - {from}, g, to);
    } else {
      assert others == names - {from};
    }
  }

  lemma {:induction false} FloorOfRelabel(t: Table, s: seq<Signal>, from: string, to: string)
    ensures Peak(Relabel(s, from, to), Anyone(), FloorOf(t)) == Peak(s, Anyone(), FloorOf(t))
  {
    assert CauseFree(FloorOf(t));
    PeakOfRelabel(s, from, to, Anyone(), Anyone(), FloorOf(t));
  }

  /** Treating two causes as one never raises entropy or intent and never moves the overall floor. */
  lemma {:induction false} MergingCausesIsSubadditive(t: Table, registry: map<string, string>, s: seq<Signal>, from: string, to: string,
                                                      baseEntropy: int, baseIntent: int)
    requires Calibrated(t, registry, s, baseEntropy, baseIntent).Ok?
    requires Calibrated(t, registry, Relabel(s, from, to), baseEntropy, baseIntent).Ok?
    ensures var apart := Calibrated(t, registry, s, baseEntropy, baseIntent).value;
            var joined := Calibrated(t, registry, Relabel(s, from, to), baseEntropy, baseIntent).value;
            joined.entropy <= apart.entropy && joined.intent <= apart.intent && joined.floor == apart.floor
  {
    hide Peak, SumOver, EntropyOf, IntentPeak, MergedOf, MergedList, Conflicted, AllAccepted;
    FloorOfRelabel(t, s, from, to);
    var r := Relabel(s, from, to);
    if from == to || from !in Causes(s) {
      RelabelOfAbsent(s, from, to);
    } else {
      CausesOfRelabel(s, from, to);
      if to !in Causes(s) { AbsentCauseHasNoEffect(t, s, to); }
      forall c | c != from
        ensures c == to ==> EntropyOf(t, r)(c) <= EntropyOf(t, s)(from) + EntropyOf(t, s)(to)
        ensures c == to ==> IntentPeak(t, r)(c) <= IntentPeak(t, s)(from) + IntentPeak(t, s)(to)
        ensures c != to ==> EntropyOf(t, r)(c) == EntropyOf(t, s)(c) && IntentPeak(t, r)(c) == IntentPeak(t, s)(c)
      {
        PartsOfRelabel(t, s, from, to, c);
      }
      SumMerge(Causes(s), from, to, EntropyOf(t, s), EntropyOf(t, r));
      SumMerge(Causes(s), from, to, IntentPeak(t, s), IntentPeak(t, r));
    }
  }

  lemma {:induction false} RelabelOfAbsent(s: seq<Signal>, from: string, to: string)
    requires from == to || from !in Causes(s)
    ensures Relabel(s, from, to) == s
  {
    forall i | 0 <= i < |s| ensures Renamed(s[i], from, to) == s[i] {
      assert s[i] in s;
    }
  }
}
