/**
 * Device-rotation classifier of the gravity-sensor hook.
 *
 * Every gravity sample yields a rotation angle `degree` (atan2 of the y and x
 * components, in degrees, in [-180, 180]). A per-platform transition table,
 * keyed by the current orientation, decides whether the orientation changes;
 * the callback then receives the (possibly new) orientation and the angle.
 * Each guard compares the angle strictly with +-45 or +-135 degrees moved by
 * the hysteresis offset `TriggerAngle`, in most cases together with a strict
 * test of its sign. On a platform other than iOS and
 * Android no table runs.
 */
module DeviceRotation {

  import opened Host

  datatype Rotation = Top | Down | Left | Right

  /** Hysteresis offset from the nominal 45 and 135 degree boundaries. */
  const TriggerAngle: real := 10.0

  /** What the classifier hands to its consumer after each sample. */
  datatype Emission = Emission(rotation: Rotation, degree: real)

  // ---------------------------------------------------------------------------
  // The transition table
  // ---------------------------------------------------------------------------

  /** One strict comparison of the sample angle with a threshold. */
  datatype Bound = Below(limit: real) | Above(limit: real)

  /** A guard: one comparison, or the conjunction of two. */
  datatype Guard = One(b: Bound) | Both(b1: Bound, b2: Bound)

  /** `if (guard) rotation = target` */
  datatype Rule = Rule(guard: Guard, target: Rotation)

  predicate Holds(b: Bound, degree: real)
  {
    match b
    case Below(l) => degree < l
    case Above(l) => degree > l
  }

  predicate Fires(rule: Rule, degree: real)
  {
    match rule.guard
    case One(b) => Holds(b, degree)
    case Both(b1, b2) => Holds(b1, degree) && Holds(b2, degree)
  }

  /** The `if` statements of one `case` of the platform's `switch (rotation)`, in the hook's order. */
  function Rules(p: Platform, r: Rotation): seq<Rule>
  {
    match p
    case IOS =>
      (match r
       case Top =>
         [Rule(Both(Below(0.0), Above(-45.0 + TriggerAngle)), Right),
          Rule(Both(Below(0.0), Below(-135.0 - TriggerAngle)), Left)]
       case Down =>
         [Rule(Both(Above(0.0), Above(135.0 + TriggerAngle)), Left),
          Rule(Both(Above(0.0), Below(45.0 - TriggerAngle)), Right)]
       case Left =>
         [Rule(Both(Above(0.0), Below(135.0 - TriggerAngle)), Down),
          Rule(Both(Below(0.0), Above(-135.0 + TriggerAngle)), Top)]
       case Right =>
         [Rule(One(Above(45.0 + TriggerAngle)), Down),
          Rule(One(Below(-45.0 - TriggerAngle)), Top)])
    case Android =>
      (match r
       case Down =>
         [Rule(Both(Below(0.0), Above(-45.0 + TriggerAngle)), Left),
          Rule(Both(Below(0.0), Below(-135.0 - TriggerAngle)), Right)]
       case Top =>
         [Rule(Both(Above(0.0), Above(135.0 + TriggerAngle)), Right),
          Rule(Both(Above(0.0), Below(45.0 - TriggerAngle)), Left)]
       case Right =>
         [Rule(Both(Above(0.0), Below(135.0 - TriggerAngle)), Top),
          Rule(Both(Below(0.0), Above(-135.0 + TriggerAngle)), Down)]
       case Left =>
         [Rule(One(Above(45.0 + TriggerAngle)), Top),
          Rule(One(Below(-45.0 - TriggerAngle)), Down)])
    case OtherPlatform => []
  }

  /**
   * Runs the `if` statements one after the other, as the hook does: every
   * rule whose guard holds assigns its target, so a later rule overrides an
   * earlier one.
   */
  function Apply(rules: seq<Rule>, r: Rotation, degree: real): Rotation
    decreases |rules|
  {
    if rules == [] then r
    else Apply(rules[1..], if Fires(rules[0], degree) then rules[0].target else r, degree)
  }

  /** The orientation after one sample of angle `degree` taken in orientation `r`. */
  function Step(p: Platform, r: Rotation, degree: real): Rotation
  {
    Apply(Rules(p, r), r, degree)
  }

  // ---------------------------------------------------------------------------
  // Reference readings of the table
  // ---------------------------------------------------------------------------

  /** "The first guard that holds wins; if none holds the orientation is kept." */
  function FirstMatch(rules: seq<Rule>, r: Rotation, degree: real): Rotation
    decreases |rules|
  {
    if rules == [] then r
    else if Fires(rules[0], degree) then rules[0].target
    else FirstMatch(rules[1..], r, degree)
  }

  /** No two guards of `rules` hold at `degree`. */
  predicate Exclusive(rules: seq<Rule>, degree: real)
  {
    forall i, j :: 0 <= i < j < |rules| ==> !(Fires(rules[i], degree) && Fires(rules[j], degree))
  }

  /** The table written out as open intervals of the angle, thresholds already added up. */
  function ClosedForm(p: Platform, r: Rotation, d: real): Rotation
  {
    match p
    case IOS =>
      (match r
       case Top => if -35.0 < d < 0.0 then Right else if d < -145.0 then Left else Top
       case Down => if d > 145.0 then Left else if 0.0 < d < 35.0 then Right else Down
       case Left => if 0.0 < d < 125.0 then Down else if -125.0 < d < 0.0 then Top else Left
       case Right => if d > 55.0 then Down else if d < -55.0 then Top else Right)
    case Android =>
      (match r
       case Down => if -35.0 < d < 0.0 then Left else if d < -145.0 then Right else Down
       case Top => if d > 145.0 then Right else if 0.0 < d < 35.0 then Left else Top
       case Right => if 0.0 < d < 125.0 then Top else if -125.0 < d < 0.0 then Down else Right
       case Left => if d > 55.0 then Top else if d < -55.0 then Down else Left)
    case OtherPlatform => r
  }

  /** The orientation reached by turning the device half way round. */
  function Opposite(r: Rotation): (o: Rotation)
    ensures o != r
  {
    match r
    case Top => Down
    case Down => Top
    case Left => Right
    case Right => Left
  }

  /** Two orientations a quarter turn apart. */
  predicate Adjacent(a: Rotation, b: Rotation)
  {
    a != b && b != Opposite(a)
  }

  /**
   * The nominal boundary angle (45 or 135 degrees, signed) between two
   * adjacent orientations on a platform that runs a table.
   */
  function Boundary(p: Platform, a: Rotation, b: Rotation): real
    requires p != OtherPlatform && Adjacent(a, b)
  {
    if p == IOS then
      if {a, b} == {Top, Right} then -45.0
      else if {a, b} == {Right, Down} then 45.0
      else if {a, b} == {Down, Left} then 135.0
      else -135.0
    else
      if {a, b} == {Down, Left} then -45.0
      else if {a, b} == {Left, Top} then 45.0
      else if {a, b} == {Top, Right} then 135.0
      else -135.0
  }

  // ---------------------------------------------------------------------------
  // Properties of one step
  // ---------------------------------------------------------------------------

  /** When none of the guards holds, running the rules keeps the orientation. */
  lemma {:induction false} ApplyNoneFires(rules: seq<Rule>, r: Rotation, degree: real)
    requires forall i :: 0 <= i < |rules| ==> !Fires(rules[i], degree)
    ensures Apply(rules, r, degree) == r
    decreases |rules|
  {
    if rules != [] {
      ApplyNoneFires(rules[1..], r, degree);
    }
  }

  /** With mutually exclusive guards, the sequential `if`s agree with first-match. */
  lemma {:induction false} SequentialIsFirstMatch(rules: seq<Rule>, r: Rotation, degree: real)
    requires Exclusive(rules, degree)
    ensures Apply(rules, r, degree) == FirstMatch(rules, r, degree)
    decreases |rules|
  {
    if rules != [] {
      var rest := rules[1..];
      assert Exclusive(rest, degree) by {
        forall i, j | 0 <= i < j < |rest|
          ensures !(Fires(rest[i], degree) && Fires(rest[j], degree))
        {
          assert rest[i] == rules[i + 1] && rest[j] == rules[j + 1];
        }
      }
      if Fires(rules[0], degree) {
        forall i | 0 <= i < |rest| ensures !Fires(rest[i], degree) {
          assert rest[i] == rules[i + 1];
        }
        ApplyNoneFires(rest, rules[0].target, degree);
      } else {
        SequentialIsFirstMatch(rest, r, degree);
      }
    }
  }

  /** Two rules run one after the other: the second overrides the first. */
  lemma ApplyTwo(first: Rule, second: Rule, r: Rotation, degree: real)
    ensures Apply([first, second], r, degree) ==
      if Fires(second, degree) then second.target
      else if Fires(first, degree) then first.target
      else r
  {
    var r1 := if Fires(first, degree) then first.target else r;
    var r2 := if Fires(second, degree) then second.target else r1;
    assert [first, second][1..] == [second];
    assert [second][1..] == [];
    assert Apply([second], r1, degree) == Apply([], r2, degree) == r2;
  }

  /** Every case of a table holds either no rule or exactly two. */
  lemma StepUnfold(p: Platform, r: Rotation, degree: real)
    ensures |Rules(p, r)| == 0 || |Rules(p, r)| == 2
    ensures |Rules(p, r)| == 0 ==> Step(p, r, degree) == r
    ensures |Rules(p, r)| == 2 ==>
      Step(p, r, degree) ==
        if Fires(Rules(p, r)[1], degree) then Rules(p, r)[1].target
        else if Fires(Rules(p, r)[0], degree) then Rules(p, r)[0].target
        else r
  {
    var rules := Rules(p, r);
    if |rules| == 2 {
      assert rules == [rules[0], rules[1]];
      ApplyTwo(rules[0], rules[1], r, degree);
    }
  }

  /** The two guards of every case of both tables never hold together. */
  lemma TableGuardsExclusive(p: Platform, r: Rotation, degree: real)
    ensures Exclusive(Rules(p, r), degree)
  {
  }

  /**
   * The order of the two `if`s inside a case cannot change the result: the
   * table equals its first-match reading, and running the rules in the
   * opposite order gives the same orientation.
   */
  lemma OrderIrrelevant(p: Platform, r: Rotation, degree: real)
    ensures Step(p, r, degree) == FirstMatch(Rules(p, r), r, degree)
    ensures |Rules(p, r)| == 2 ==>
      Apply([Rules(p, r)[1], Rules(p, r)[0]], r, degree) == Step(p, r, degree)
  {
    TableGuardsExclusive(p, r, degree);
    SequentialIsFirstMatch(Rules(p, r), r, degree);
  }

  /** The table, read as intervals with strict ends (e.g. iOS `top`: (-35, 0) gives `right`, below -145 `left`). */
  lemma StepClosedForm(p: Platform, r: Rotation, d: real)
    ensures Step(p, r, d) == ClosedForm(p, r, d)
  {
    StepUnfold(p, r, d);
  }

  /** One sample never turns the orientation into its opposite. */
  lemma NeverToOpposite(p: Platform, r: Rotation, d: real)
    ensures Step(p, r, d) != Opposite(r)
  {
    StepClosedForm(p, r, d);
  }

  /** A change of orientation is always a quarter turn. */
  lemma ChangesAreQuarterTurns(p: Platform, r: Rotation, d: real)
    ensures Step(p, r, d) == r || Adjacent(r, Step(p, r, d))
  {
    NeverToOpposite(p, r, d);
  }

  /** The Android table is the iOS table conjugated by the half turn. */
  lemma AndroidMirrorsIOS(r: Rotation, d: real)
    ensures Step(Android, r, d) == Opposite(Step(IOS, Opposite(r), d))
  {
    StepClosedForm(Android, r, d);
    StepClosedForm(IOS, Opposite(r), d);
  }

  /** Platforms other than iOS and Android never change the orientation. */
  lemma OtherPlatformKeeps(r: Rotation, d: real)
    ensures Step(OtherPlatform, r, d) == r
  {
  }

  /**
   * Hysteresis band: within `TriggerAngle` of the nominal boundary between two
   * adjacent orientations (ends included), each of them is kept.
   */
  lemma HysteresisBand(p: Platform, a: Rotation, b: Rotation, d: real)
    requires p != OtherPlatform && Adjacent(a, b)
    requires Boundary(p, a, b) - TriggerAngle <= d <= Boundary(p, a, b) + TriggerAngle
    ensures Step(p, a, d) == a && Step(p, b, d) == b
  {
    StepClosedForm(p, a, d);
    StepClosedForm(p, b, d);
  }

  /**
   * Switching from `a` to `b` and back again needs the angle to move by more
   * than twice the hysteresis offset.
   */
  lemma HysteresisGap(p: Platform, a: Rotation, b: Rotation, d1: real, d2: real)
    requires a != b && Step(p, a, d1) == b && Step(p, b, d2) == a
    ensures d1 - d2 > 2.0 * TriggerAngle || d2 - d1 > 2.0 * TriggerAngle
  {
    StepClosedForm(p, a, d1);
    StepClosedForm(p, b, d2);
  }

  /** From `top` or `down`, one sample already reaches an orientation that the same angle keeps. */
  lemma IdempotentFromTopOrDown(p: Platform, r: Rotation, d: real)
    requires r == Top || r == Down
    ensures Step(p, Step(p, r, d), d) == Step(p, r, d)
  {
    StepClosedForm(p, r, d);
    StepClosedForm(p, Step(p, r, d), d);
  }

  /**
   * Per-sample idempotence fails in general: on iOS, `left` at 10 degrees moves
   * to `down`, and a second sample at the same angle moves on to `right`.
   */
  lemma CascadeFromLeft()
    ensures Step(IOS, Left, 10.0) == Down
    ensures Step(IOS, Step(IOS, Left, 10.0), 10.0) == Right
  {
  }

  /** At a fixed angle the orientation settles after at most two samples. */
  lemma SettlesWithinTwoSamples(p: Platform, r: Rotation, d: real)
    ensures Step(p, Step(p, Step(p, r, d), d), d) == Step(p, Step(p, r, d), d)
  {
    var r1 := Step(p, r, d);
    var r2 := Step(p, r1, d);
    StepClosedForm(p, r, d);
    StepClosedForm(p, r1, d);
    StepClosedForm(p, r2, d);
  }

  // ---------------------------------------------------------------------------
  // Sample histories
  // ---------------------------------------------------------------------------

  /** The orientation after the samples `ds`, starting from `top`. */
  function Final(p: Platform, ds: seq<real>): Rotation
    decreases |ds|
  {
    if ds == [] then Top
    else Step(p, Final(p, ds[..|ds| - 1]), ds[|ds| - 1])
  }

  /** The callback invocations caused by the samples `ds`, in order. */
  function Trace(p: Platform, ds: seq<real>): seq<Emission>
    decreases |ds|
  {
    if ds == [] then []
    else
      var prefix := ds[..|ds| - 1];
      var d := ds[|ds| - 1];
      Trace(p, prefix) + [Emission(Step(p, Final(p, prefix), d), d)]
  }

  /**
   * Every sample causes exactly one callback; it carries the sample's own
   * angle and the orientation reached after that sample.
   */
  lemma {:induction false} TraceShape(p: Platform, ds: seq<real>)
    ensures |Trace(p, ds)| == |ds|
    ensures forall i :: 0 <= i < |ds| ==>
      Trace(p, ds)[i] == Emission(Final(p, ds[..i + 1]), ds[i])
    decreases |ds|
  {
    if ds != [] {
      var prefix := ds[..|ds| - 1];
      TraceShape(p, prefix);
      forall i | 0 <= i < |ds|
        ensures Trace(p, ds)[i] == Emission(Final(p, ds[..i + 1]), ds[i])
      {
        if i < |prefix| {
          assert prefix[..i + 1] == ds[..i + 1];
        } else {
          assert ds[..i + 1] == ds;
        }
      }
    }
  }

  /** Consecutive callbacks never report opposite orientations, and the first is never `down`. */
  lemma TraceNoOpposite(p: Platform, ds: seq<real>)
    ensures |Trace(p, ds)| == |ds|
    ensures |ds| > 0 ==> Trace(p, ds)[0].rotation != Down
    ensures forall i :: 0 < i < |ds| ==>
      Trace(p, ds)[i].rotation != Opposite(Trace(p, ds)[i - 1].rotation)
  {
    TraceShape(p, ds);
    if |ds| > 0 {
      assert ds[..1][..0] == [];
      NeverToOpposite(p, Top, ds[0]);
    }
    forall i | 0 < i < |ds|
      ensures Trace(p, ds)[i].rotation != Opposite(Trace(p, ds)[i - 1].rotation)
    {
      assert ds[..i + 1][..i] == ds[..i];
      NeverToOpposite(p, Final(p, ds[..i]), ds[i]);
    }
  }

  // ---------------------------------------------------------------------------
  // The stateful classifier
  // ---------------------------------------------------------------------------

  /**
   * The subscription callback with its persistent `rotation` variable. The
   * ghost fields record the samples seen and the callback invocations made.
   */
  class RotationSensor {
    const platform: Platform
    var rotation: Rotation
    ghost var samples: seq<real>
    ghost var emitted: seq<Emission>

    ghost predicate Valid()
      reads this
    {
      rotation == Final(platform, samples) && emitted == Trace(platform, samples)
    }

    /** Before any sample the orientation is `top` and nothing has been reported. */
    constructor (p: Platform)
      ensures Valid()
      ensures platform == p && rotation == Top
      ensures samples == [] && emitted == []
    {
      platform := p;
      rotation := Top;
      samples := [];
      emitted := [];
    }

    /** Handles one gravity sample whose rotation angle is `degree`. */
    method OnSample(degree: real) returns (reported: Emission)
      requires Valid()
      modifies this
      ensures Valid()
      ensures rotation == Step(platform, old(rotation), degree)
      ensures reported == Emission(rotation, degree)
      ensures samples == old(samples) + [degree]
      ensures emitted == old(emitted) + [reported]
    {
      ghost var before := rotation;
      if platform == IOS {
        match rotation
        case Top =>
          if degree < 0.0 && degree > -45.0 + TriggerAngle { rotation := Right; }
          if degree < 0.0 && degree < -135.0 - TriggerAngle { rotation := Left; }
        case Down =>
          if degree > 0.0 && degree > 135.0 + TriggerAngle { rotation := Left; }
          if degree > 0.0 && degree < 45.0 - TriggerAngle { rotation := Right; }
        case Left =>
          if degree > 0.0 && degree < 135.0 - TriggerAngle { rotation := Down; }
          if degree < 0.0 && degree > -135.0 + TriggerAngle { rotation := Top; }
        case Right =>
          if degree > 45.0 + TriggerAngle { rotation := Down; }
          if degree < -45.0 - TriggerAngle { rotation := Top; }
      }
      if platform == Android {
        match rotation
        case Down =>
          if degree < 0.0 && degree > -45.0 + TriggerAngle { rotation := Left; }
          if degree < 0.0 && degree < -135.0 - TriggerAngle { rotation := Right; }
        case Top =>
          if degree > 0.0 && degree > 135.0 + TriggerAngle { rotation := Right; }
          if degree > 0.0 && degree < 45.0 - TriggerAngle { rotation := Left; }
        case Right =>
          if degree > 0.0 && degree < 135.0 - TriggerAngle { rotation := Top; }
          if degree < 0.0 && degree > -135.0 + TriggerAngle { rotation := Down; }
        case Left =>
          if degree > 45.0 + TriggerAngle { rotation := Top; }
          if degree < -45.0 - TriggerAngle { rotation := Down; }
      }
      StepUnfold(platform, before, degree);
      reported := Emission(rotation, degree);
      assert (samples + [degree])[..|samples|] == samples;
      samples := samples + [degree];
      emitted := emitted + [reported];
    }
  }
}
