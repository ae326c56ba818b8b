/** The check that a behaviour projection materializes a batch of directives. */
module DirectiveBatch {
  import opened Ordering

  datatype Operation = SetMode | SetFramework | SetControl | Foreign

  datatype Directive = Directive(operation: Operation, target: string, value: string)

  datatype Projection = Projection(mode: string, frameworks: map<string, string>, focus: seq<string>,
                                   recovery: int, controls: map<string, string>)

  /** JSON and integer parsing and rendering of the two structured controls. */
  datatype Codec = Codec(readFocus: string -> Option<seq<string>>, showFocus: seq<string> -> string,
                         readLevel: string -> Option<int>, showLevel: int -> string)

  ghost predicate Lawful(codec: Codec) {
    && (forall x :: codec.readFocus(codec.showFocus(x)) == Some(x))
    && (forall n :: codec.readLevel(codec.showLevel(n)) == Some(n))
  }

  const FOCUS := "focus_criteria"
  const RECOVERY := "recovery_level"

  function Lower(s: string): (r: string)
    ensures |r| == |s|
  {
    seq(|s|, i requires 0 <= i < |s| => if 'A' <= s[i] <= 'Z' then s[i] + ' ' else s[i])
  }

  /** What a directive addresses. */
  datatype Key = Mode | Framework(id: string) | Focus | Recovery | Control(name: string)

  function KeyOf(d: Directive): Key {
    match d.operation
    case SetMode => Mode
    case SetFramework => Framework(Lower(d.target))
    case _ => if d.target == FOCUS then Focus else if d.target == RECOVERY then Recovery else Control(d.target)
  }

  /** The projection's own rendering of a key, when it has one. */
  function Actual(p: Projection, key: Key, codec: Codec): Option<string> {
    match key
    case Mode => Some(p.mode)
    case Framework(id) => if id in p.frameworks then Some(p.frameworks[id]) else None
    case Focus => Some(codec.showFocus(p.focus))
    case Recovery => Some(codec.showLevel(p.recovery))
    case Control(name) => if name in p.controls then Some(p.controls[name]) else None
  }

  /** Lower-casing: capitals become their small letters and everything else stays. */
  lemma {:induction false} LowerFolds(s: string)
    ensures Lower("ABCDEFGHIJKLMNOPQRSTUVWXYZ") == "abcdefghijklmnopqrstuvwxyz"
    ensures forall i :: 0 <= i < |s| && !('A' <= s[i] <= 'Z') ==> Lower(s)[i] == s[i]
    ensures forall i :: 0 <= i < |s| ==> !('A' <= Lower(s)[i] <= 'Z')
    ensures Lower(Lower(s)) == Lower(s)
  {}

  /** The last value given for every key. */
  ghost function FinalValues(ds: seq<Directive>): map<Key, string> {
    if ds == [] then map[]
    else FinalValues(ds[..|ds| - 1])[KeyOf(ds[|ds| - 1]) := ds[|ds| - 1].value]
  }

  ghost predicate Materializes(p: Projection, ds: seq<Directive>, codec: Codec) {
    && (forall d :: d in ds ==> d.operation != Foreign)
    && (forall key :: key in FinalValues(ds) ==> Actual(p, key, codec) == Some(FinalValues(ds)[key]))
  }

  method ValidateProjection(ds: seq<Directive>, p: Projection, codec: Codec) returns (accepted: bool)
    ensures accepted <==> Materializes(p, ds, codec)
  {
    hide KeyOf, Actual;
    var finalValues: map<Key, string> := map[];
    var order: seq<Key> := [];
    for i := 0 to |ds|
      invariant finalValues == FinalValues(ds[..i]) && Elems(order) == finalValues.Keys
      invariant forall d :: d in ds[..i] ==> d.operation != Foreign
    {
      assert ds[..i + 1] == ds[..i] + [ds[i]] && ds[..i + 1][..i] == ds[..i];
      if ds[i].operation == Foreign {
        assert ds[i] in ds;
        return false;
      }
      finalValues := finalValues[KeyOf(ds[i]) := ds[i].value];
      ElemsAppend(order, KeyOf(ds[i]));
      order := order + [KeyOf(ds[i])];
    }
    assert ds[..|ds|] == ds;
    for k := 0 to |order|
      invariant forall j :: 0 <= j < k ==>
        order[j] in finalValues && Actual(p, order[j], codec) == Some(finalValues[order[j]])
    {
      assert order[k] in Elems(order);
      if Actual(p, order[k], codec) != Some(finalValues[order[k]]) {
        return false;
      }
    }
    forall key | key in finalValues ensures Actual(p, key, codec) == Some(finalValues[key]) {
      assert key in Elems(order);
    }
    return true;
  }

  // ---------- replay ----------

  /** Carrying out one directive on the typed state. */
  ghost function Apply(p: Projection, d: Directive, codec: Codec): Projection {
    match KeyOf(d)
    case Mode => p.(mode := d.value)
    case Framework(id) => p.(frameworks := p.frameworks[id := d.value])
    case Focus => if codec.readFocus(d.value).Some? then p.(focus := codec.readFocus(d.value).value) else p
    case Recovery => if codec.readLevel(d.value).Some? then p.(recovery := codec.readLevel(d.value).value) else p
    case Control(name) => p.(controls := p.controls[name := d.value])
  }

  ghost function Replay(p: Projection, ds: seq<Directive>, codec: Codec): Projection {
    if ds == [] then p else Apply(Replay(p, ds[..|ds| - 1], codec), ds[|ds| - 1], codec)
  }

  /** A directive that passed validation: for this adapter, and parseable where it is structured. */
  ghost predicate WellFormed(d: Directive, codec: Codec) {
    && d.operation != Foreign
    && (KeyOf(d) == Focus ==> codec.readFocus(d.value).Some?)
    && (KeyOf(d) == Recovery ==> codec.readLevel(d.value).Some?)
  }

  /** The typed content of a key. */
  datatype Content = Text(text: Option<string>) | Words(words: seq<string>) | Level(level: int)

  ghost function ContentOf(p: Projection, key: Key): Content {
    match key
    case Mode => Text(Some(p.mode))
    case Framework(id) => Text(if id in p.frameworks then Some(p.frameworks[id]) else None)
    case Focus => Words(p.focus)
    case Recovery => Level(p.recovery)
    case Control(name) => Text(if name in p.controls then Some(p.controls[name]) else None)
  }

  ghost function Meaning(key: Key, value: string, codec: Codec): Option<Content> {
    match key
    case Focus => if codec.readFocus(value).Some? then Some(Words(codec.readFocus(value).value)) else None
    case Recovery => if codec.readLevel(value).Some? then Some(Level(codec.readLevel(value).value)) else None
    case _ => Some(Text(Some(value)))
  }

  /** The value is written the way the projection renders its content. */
  ghost predicate CanonicalText(key: Key, value: string, codec: Codec) {
    match key
    case Focus => codec.readFocus(value).Some? && value == codec.showFocus(codec.readFocus(value).value)
    case Recovery => codec.readLevel(value).Some? && value == codec.showLevel(codec.readLevel(value).value)
    case _ => true
  }

  lemma {:induction false} SameContentSameProjection(p: Projection, q: Projection)
    requires forall key :: ContentOf(p, key) == ContentOf(q, key)
    ensures p == q
  {
    assert ContentOf(p, Mode) == ContentOf(q, Mode);
    assert ContentOf(p, Focus) == ContentOf(q, Focus);
    assert ContentOf(p, Recovery) == ContentOf(q, Recovery);
    forall id ensures (id in p.frameworks <==> id in q.frameworks)
                      && (id in p.frameworks ==> p.frameworks[id] == q.frameworks[id]) {
      assert ContentOf(p, Framework(id)) == ContentOf(q, Framework(id));
    }
    assert p.frameworks == q.frameworks;
    forall name ensures (name in p.controls <==> name in q.controls)
                        && (name in p.controls ==> p.controls[name] == q.controls[name]) {
      assert ContentOf(p, Control(name)) == ContentOf(q, Control(name));
    }
    assert p.controls == q.controls;
  }

  lemma {:induction false} ApplySets(p: Projection, d: Directive, codec: Codec, key: Key)
    requires WellFormed(d, codec)
    ensures Meaning(KeyOf(d), d.value, codec).Some?
    ensures ContentOf(Apply(p, d, codec), key)
         == if key == KeyOf(d) then Meaning(key, d.value, codec).value else ContentOf(p, key)
  {
    hide KeyOf;
  }

  /** After a replay every addressed key holds its last value and every other key is untouched. */
  lemma {:induction false} ReplayLastWriterWins(p: Projection, ds: seq<Directive>, codec: Codec, key: Key)
    requires forall d :: d in ds ==> WellFormed(d, codec)
    ensures key in FinalValues(ds) ==> Meaning(key, FinalValues(ds)[key], codec).Some?
    ensures ContentOf(Replay(p, ds, codec), key)
         == if key in FinalValues(ds) then Meaning(key, FinalValues(ds)[key], codec).value else ContentOf(p, key)
  {
    hide KeyOf, WellFormed, Apply, Meaning, ContentOf;
    if ds != [] {
      var last := |ds| - 1;
      assert ds == ds[..last] + [ds[last]];
      ReplayLastWriterWins(p, ds[..last], codec, key);
      ApplySets(Replay(p, ds[..last], codec), ds[last], codec, key);
    }
  }

  lemma {:induction false} ReplayUnchangedIff(p: Projection, ds: seq<Directive>, codec: Codec)
    requires forall d :: d in ds ==> WellFormed(d, codec)
    ensures Replay(p, ds, codec) == p
       <==> forall key :: key in FinalValues(ds) ==> Meaning(key, FinalValues(ds)[key], codec) == Some(ContentOf(p, key))
  {
    hide KeyOf, WellFormed, Apply, Meaning, ContentOf, Replay, FinalValues;
    forall key
      ensures key in FinalValues(ds) ==> Meaning(key, FinalValues(ds)[key], codec).Some?
      ensures ContentOf(Replay(p, ds, codec), key)
           == if key in FinalValues(ds) then Meaning(key, FinalValues(ds)[key], codec).value else ContentOf(p, key)
    {
      ReplayLastWriterWins(p, ds, codec, key);
    }
    if forall key :: key in FinalValues(ds) ==> Meaning(key, FinalValues(ds)[key], codec) == Some(ContentOf(p, key)) {
      SameContentSameProjection(Replay(p, ds, codec), p);
    }
  }

  lemma {:induction false} ActualIffMeaning(p: Projection, key: Key, value: string, codec: Codec)
    requires Lawful(codec)
    ensures Actual(p, key, codec) == Some(value)
       <==> Meaning(key, value, codec) == Some(ContentOf(p, key)) && CanonicalText(key, value, codec)
  {}

  /** A batch of well-formed directives is accepted exactly when replaying it leaves the projection
      unchanged and every last value is written in the projection's own rendering. */
  lemma {:induction false} AcceptedIffReplayUnchanged(p: Projection, ds: seq<Directive>, codec: Codec)
    requires Lawful(codec) && forall d :: d in ds ==> WellFormed(d, codec)
    ensures Materializes(p, ds, codec)
       <==> Replay(p, ds, codec) == p
            && forall key :: key in FinalValues(ds) ==> CanonicalText(key, FinalValues(ds)[key], codec)
  {
    hide KeyOf, Apply, Meaning, ContentOf, Replay, FinalValues, Actual, CanonicalText;
    ReplayUnchangedIff(p, ds, codec);
    forall key | key in FinalValues(ds)
      ensures Actual(p, key, codec) == Some(FinalValues(ds)[key])
         <==> Meaning(key, FinalValues(ds)[key], codec) == Some(ContentOf(p, key)) && CanonicalText(key, FinalValues(ds)[key], codec)
    {
      ActualIffMeaning(p, key, FinalValues(ds)[key], codec);
    }
  }

  /** Replay alone does not decide: a recovery level written with a leading zero replays to no change
      and is still refused. */
  lemma {:induction false} LeadingZeroIsRefused(p: Projection, codec: Codec)
    requires Lawful(codec) && codec.readLevel("02") == Some(2) && codec.showLevel(2) == "2" && p.recovery == 2
    ensures var ds := [Directive(SetControl, RECOVERY, "02")];
            WellFormed(ds[0], codec) && Replay(p, ds, codec) == p && !Materializes(p, ds, codec)
  {
    var d := Directive(SetControl, RECOVERY, "02");
    assert RECOVERY[0] != FOCUS[0];
    assert KeyOf(d) == Recovery;
    assert [d][..0] == [];
    assert FinalValues([d]) == map[Recovery := "02"];
    assert Replay(p, [d], codec) == Apply(Replay(p, [], codec), d, codec);
    assert Recovery in FinalValues([d]) && FinalValues([d])[Recovery] == "02";
    assert |"02"| != |"2"|;
    assert Actual(p, Recovery, codec) != Some("02");
  }

  // ---------- small batches ----------

  /** One directive is accepted exactly when the projection shows its value where its operation points. */
  lemma {:induction false} SingleDirective(p: Projection, d: Directive, codec: Codec)
    ensures Materializes(p, [d], codec) <==>
      match d.operation
      case SetMode => p.mode == d.value
      case SetFramework => Lower(d.target) in p.frameworks && p.frameworks[Lower(d.target)] == d.value
      case SetControl =>
        if d.target == "focus_criteria" then codec.showFocus(p.focus) == d.value
        else if d.target == "recovery_level" then codec.showLevel(p.recovery) == d.value
        else d.target in p.controls && p.controls[d.target] == d.value
      case Foreign => false
  {
    hide Lower;
    assert [d][..0] == [];
    assert FinalValues([d]) == map[KeyOf(d) := d.value];
    assert KeyOf(d) in FinalValues([d]) && d in [d];
  }

  /** Whether two directives address the same thing. */
  ghost predicate SameTarget(c: Directive, d: Directive) {
    c.operation == d.operation
    && (c.operation == SetMode || (c.operation == SetFramework && Lower(c.target) == Lower(d.target)) || c.target == d.target)
  }

  lemma {:induction false} SameTargetIsSameKey(c: Directive, d: Directive)
    requires c.operation != Foreign && d.operation != Foreign
    ensures KeyOf(c) == KeyOf(d) <==> SameTarget(c, d)
  {
    hide Lower;
    assert FOCUS[0] != RECOVERY[0];
  }

  lemma {:induction false} FinalOfOne(d: Directive)
    ensures FinalValues([d]) == map[KeyOf(d) := d.value]
  {
    assert [d][..0] == [];
  }

  lemma {:induction false} FinalOfTwo(c: Directive, d: Directive)
    ensures FinalValues([c, d]) == map[KeyOf(c) := c.value][KeyOf(d) := d.value]
  {
    assert [c, d][..1] == [c];
    FinalOfOne(c);
  }

  /** Of two directives for one target only the later counts; for different targets both do. */
  lemma {:induction false} LaterDirectiveCounts(p: Projection, c: Directive, d: Directive, codec: Codec)
    requires c.operation != Foreign && d.operation != Foreign
    ensures Materializes(p, [c, d], codec) <==> (SameTarget(c, d) || Materializes(p, [c], codec)) && Materializes(p, [d], codec)
  {
    SameTargetIsSameKey(c, d);
    FinalOfOne(c);
    FinalOfOne(d);
    FinalOfTwo(c, d);
    hide SameTarget, KeyOf, Actual, FinalValues;
    assert KeyOf(c) in FinalValues([c, d]) && KeyOf(d) in FinalValues([c, d]);
    assert KeyOf(c) in FinalValues([c]) && KeyOf(d) in FinalValues([d]);
  }
}
