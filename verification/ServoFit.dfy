/** Fitting a servo's sign and trim from fixture poses and the ticks they were read at. */
module ServoFit {
  import opened RobotConfigs
  import opened ServoMath

  datatype Sample = Sample(deg: real, tick: int)

  /** The ticks a pose lies from the centre, for a servo that turns the plain way. */
  function Off(deg: real): int {
    Lround((deg - 180.0) * TICKS_PER_DEG)
  }

  function Distance(deg: real): real {
    if deg >= 180.0 then deg - 180.0 else 180.0 - deg
  }

  predicate Central(x: Sample) {
    Distance(x.deg) < 0.5
  }

  // ---------- The pieces of the fit ----------

  predicate InDevice(xs: seq<Sample>) {
    forall i :: 0 <= i < |xs| ==> 0 <= xs[i].tick <= SERVO_MAX_TICK
  }

  function CentralSum(xs: seq<Sample>): int {
    if xs == [] then 0
    else
      var x := xs[|xs| - 1];
      CentralSum(xs[..|xs| - 1]) + if Central(x) then x.tick else 0
  }

  function CentralCount(xs: seq<Sample>): nat {
    if xs == [] then 0 else CentralCount(xs[..|xs| - 1]) + if Central(xs[|xs| - 1]) then 1 else 0
  }

  /** The mean of the centre readings, or no trim at all. */
  function FirstTrim(xs: seq<Sample>): int {
    if CentralCount(xs) == 0 then 0
    else PyRound(CentralSum(xs) as real / CentralCount(xs) as real) - SERVO_CENTER_TICK
  }

  datatype Vote = NoVote | Vote(sample: Sample)

  /** The first of the poses off centre that lie farthest out. */
  function Farthest(xs: seq<Sample>): (v: Vote)
    ensures v.Vote? ==> v.sample in xs && !Central(v.sample)
  {
    if xs == [] then NoVote
    else
      var v, x := Farthest(xs[..|xs| - 1]), xs[|xs| - 1];
      if Central(x) || (v.Vote? && Distance(v.sample.deg) >= Distance(x.deg)) then v else Vote(x)
  }

  function SignOf(v: Sample, trim: int): int {
    if (v.tick - SERVO_CENTER_TICK - trim) * Off(v.deg) >= 0 then 1 else -1
  }

  function Trims(xs: seq<Sample>, sign: int): (ts: seq<int>)
    ensures |ts| == |xs|
  {
    seq(|xs|, i requires 0 <= i < |xs| => xs[i].tick - SERVO_CENTER_TICK - sign * Off(xs[i].deg))
  }

  /** Put a number in its place. */
  function Insert(ts: seq<int>, t: int): (r: seq<int>)
    ensures |r| == |ts| + 1
  {
    if ts == [] || ts[|ts| - 1] <= t then ts + [t]
    else Insert(ts[..|ts| - 1], t) + [ts[|ts| - 1]]
  }

  function Sort(ts: seq<int>): (r: seq<int>)
    ensures |r| == |ts|
  {
    if ts == [] then [] else Insert(Sort(ts[..|ts| - 1]), ts[|ts| - 1])
  }

  function Median(ts: seq<int>): int
    requires ts != []
  {
    var r, mid := Sort(ts), |ts| / 2;
    if |ts| % 2 == 1 then r[mid] else PyRound(0.5 * (r[mid - 1] + r[mid]) as real)
  }

  /** The sum of the squared residuals; their root mean square is zero exactly when it is. */
  function ErrorSquares(xs: seq<Sample>, sign: int, trim: int): int {
    if xs == [] then 0
    else
      var x := xs[|xs| - 1];
      var e := x.tick - (SERVO_CENTER_TICK + trim + sign * Off(x.deg));
      ErrorSquares(xs[..|xs| - 1], sign, trim) + e * e
  }

  datatype Result = Fitted(sign: int, trim: int, errorSquares: int) | TickOutside | TooFew | OnlyCentral | NoOffset

  function Fit(xs: seq<Sample>): Result {
    if !InDevice(xs) then TickOutside
    else if |xs| < 2 then TooFew
    else
      match Farthest(xs)
      case NoVote => OnlyCentral
      case Vote(v) =>
        if Off(v.deg) == 0 then NoOffset
        else
          var sign := SignOf(v, FirstTrim(xs));
          var trim := Median(Trims(xs, sign));
          Fitted(sign, trim, ErrorSquares(xs, sign, trim))
  }

  // ---------- Sorting and the median ----------

  predicate Ascending(ts: seq<int>) {
    forall i, j :: 0 <= i < j < |ts| ==> ts[i] <= ts[j]
  }

  lemma {:induction false} InsertKeeps(ts: seq<int>, t: int)
    ensures multiset(Insert(ts, t)) == multiset(ts) + multiset{t}
  {
    if ts != [] && ts[|ts| - 1] > t {
      InsertKeeps(ts[..|ts| - 1], t);
      assert ts == ts[..|ts| - 1] + [ts[|ts| - 1]];
    }
  }

  lemma AscendingSnoc(r: seq<int>, last: int)
    requires Ascending(r) && (r == [] || r[|r| - 1] <= last)
    ensures Ascending(r + [last])
  {
  }

  /** The largest of a list and an inserted number is the last. */
  lemma {:induction false} InsertSorts(ts: seq<int>, t: int)
    requires Ascending(ts)
    ensures Ascending(Insert(ts, t))
    ensures var r := Insert(ts, t);
            r[|r| - 1] == if ts == [] || ts[|ts| - 1] <= t then t else ts[|ts| - 1]
  {
    if ts == [] || ts[|ts| - 1] <= t {
      AscendingSnoc(ts, t);
    } else {
      InsertSorts(ts[..|ts| - 1], t);
      AscendingSnoc(Insert(ts[..|ts| - 1], t), ts[|ts| - 1]);
    }
  }

  lemma {:induction false} SortAscends(ts: seq<int>)
    ensures Ascending(Sort(ts))
  {
    if ts != [] {
      SortAscends(ts[..|ts| - 1]);
      InsertSorts(Sort(ts[..|ts| - 1]), ts[|ts| - 1]);
    }
  }

  lemma {:induction false} SortKeeps(ts: seq<int>)
    ensures multiset(Sort(ts)) == multiset(ts)
  {
    if ts != [] {
      SortKeeps(ts[..|ts| - 1]);
      InsertKeeps(Sort(ts[..|ts| - 1]), ts[|ts| - 1]);
      assert ts == ts[..|ts| - 1] + [ts[|ts| - 1]];
    }
  }

  lemma {:induction false} CountAtMost(r: seq<int>, t: int)
    ensures multiset(r)[t] <= |r|
    ensures t !in r ==> multiset(r)[t] == 0
  {
    if r != [] {
      CountAtMost(r[1..], t);
      assert r == [r[0]] + r[1..];
    }
  }

  lemma BelowMiddle(r: seq<int>, t: int, mid: nat)
    requires Ascending(r) && mid < |r| && r[mid] < t
    ensures multiset(r)[t] <= |r| - mid - 1
  {
    assert r == r[..mid + 1] + r[mid + 1..];
    CountAtMost(r[..mid + 1], t);
    CountAtMost(r[mid + 1..], t);
  }

  lemma AboveMiddle(r: seq<int>, t: int, mid: nat)
    requires Ascending(r) && mid < |r| && r[mid] > t
    ensures multiset(r)[t] <= mid
  {
    assert r == r[..mid] + r[mid..];
    CountAtMost(r[..mid], t);
    CountAtMost(r[mid..], t);
  }

  /** In an ascending list a value held by more than half sits in the middle. */
  lemma MajorityInMiddle(r: seq<int>, t: int, mid: nat)
    requires Ascending(r) && 2 * multiset(r)[t] > |r|
    requires mid < |r| && |r| <= 2 * mid + 2 && 2 * mid <= |r|
    ensures r[mid] == t
  {
    if r[mid] < t {
      BelowMiddle(r, t, mid);
    } else if r[mid] > t {
      AboveMiddle(r, t, mid);
    }
  }

  /** The median of a list more than half of which is one value is that value. */
  lemma MedianOfMajority(ts: seq<int>, t: int)
    requires 2 * multiset(ts)[t] > |ts|
    ensures ts != [] && Median(ts) == t
  {
    SortAscends(ts);
    SortKeeps(ts);
    var r, mid := Sort(ts), |ts| / 2;
    if |ts| % 2 == 1 {
      MajorityInMiddle(r, t, mid);
    } else {
      MajorityInMiddle(r, t, mid - 1);
      MajorityInMiddle(r, t, mid);
      assert 0.5 * (t + t) as real == t as real;
      RoundsExactly(t);
    }
  }

  /** Two ascending lists of the same numbers are the same list. */
  lemma {:induction false} AscendingUnique(r: seq<int>, s: seq<int>)
    requires Ascending(r) && Ascending(s) && multiset(r) == multiset(s)
    ensures r == s
  {
    SameLength(r, s);
    if r != [] {
      SameLast(r, s);
      SameFronts(r, s);
      AscendingUnique(r[..|r| - 1], s[..|s| - 1]);
      FrontAndLast(r, s);
    }
  }

  lemma SameLength(r: seq<int>, s: seq<int>)
    requires multiset(r) == multiset(s)
    ensures |r| == |s|
  {
    assert |multiset(r)| == |multiset(s)|;
  }

  lemma SameFronts(r: seq<int>, s: seq<int>)
    requires multiset(r) == multiset(s) && |r| == |s| > 0 && r[|r| - 1] == s[|s| - 1]
    ensures multiset(r[..|r| - 1]) == multiset(s[..|s| - 1])
  {
    var n := |r| - 1;
    assert r == r[..n] + [r[n]] && s == s[..n] + [s[n]];
    var a, b := multiset(r[..n]), multiset(s[..n]);
    assert multiset(r) == a + multiset{r[n]} && multiset(s) == b + multiset{s[n]};
    assert forall t :: (a + multiset{r[n]})[t] == (b + multiset{s[n]})[t] ==> a[t] == b[t];
  }

  lemma FrontAndLast(r: seq<int>, s: seq<int>)
    requires |r| == |s| > 0 && r[..|r| - 1] == s[..|s| - 1] && r[|r| - 1] == s[|s| - 1]
    ensures r == s
  {
    var n := |r| - 1;
    assert r == r[..n] + [r[n]] && s == s[..n] + [s[n]];
  }

  lemma SameLast(r: seq<int>, s: seq<int>)
    requires Ascending(r) && Ascending(s) && multiset(r) == multiset(s) && |r| == |s| > 0
    ensures r[|r| - 1] == s[|s| - 1]
  {
    var n := |r| - 1;
    assert r[n] in multiset(r) && s[n] in multiset(s);
    LargestLast(r, s[n]);
    LargestLast(s, r[n]);
  }

  lemma LargestLast(r: seq<int>, t: int)
    requires Ascending(r) && t in multiset(r)
    ensures r != [] && t <= r[|r| - 1]
  {
    assert t in r;
    var i :| 0 <= i < |r| && r[i] == t;
  }

  /** The median of any list, in terms of the same numbers in ascending order: the middle one, or
      the rounded mean of the two middle ones. */
  lemma MedianIs(ts: seq<int>, r: seq<int>)
    requires ts != [] && Ascending(r) && multiset(r) == multiset(ts)
    ensures |r| == |ts|
    ensures |ts| % 2 == 1 ==> Median(ts) == r[|ts| / 2]
    ensures |ts| % 2 == 0 ==> Nearest(Median(ts), (r[|ts| / 2 - 1] + r[|ts| / 2]) as real / 2.0)
                              && r[|ts| / 2 - 1] <= Median(ts) <= r[|ts| / 2]
  {
    SortAscends(ts);
    SortKeeps(ts);
    AscendingUnique(r, Sort(ts));
  }

  // ---------- What the fit recovers ----------

  /** The reading a servo with this sign and trim gives. */
  predicate Exact(x: Sample, sign: int, trim: int) {
    x.tick == SERVO_CENTER_TICK + trim + sign * Off(x.deg)
  }

  function ExactCount(xs: seq<Sample>, sign: int, trim: int): nat {
    if xs == [] then 0 else ExactCount(xs[..|xs| - 1], sign, trim) + if Exact(xs[|xs| - 1], sign, trim) then 1 else 0
  }

  lemma {:induction false} ExactTrims(xs: seq<Sample>, sign: int, trim: int)
    ensures multiset(Trims(xs, sign))[trim] == ExactCount(xs, sign, trim)
  {
    if xs != [] {
      var front, x := xs[..|xs| - 1], xs[|xs| - 1];
      ExactTrims(front, sign, trim);
      assert Trims(xs, sign) == Trims(front, sign) + [x.tick - SERVO_CENTER_TICK - sign * Off(x.deg)];
    }
  }

  /** The pose that decides the sign is the first of those farthest from the centre, and there is
      one exactly when some pose is off centre. */
  lemma {:induction false} FarthestIs(xs: seq<Sample>) returns (i: nat)
    ensures Farthest(xs).Vote? <==> exists j :: 0 <= j < |xs| && !Central(xs[j])
    ensures Farthest(xs).Vote? ==> i < |xs| && Farthest(xs).sample == xs[i] && !Central(xs[i])
    ensures Farthest(xs).Vote? ==>
              forall j :: 0 <= j < |xs| && !Central(xs[j]) ==>
                Distance(xs[j].deg) <= Distance(xs[i].deg) && (j < i ==> Distance(xs[j].deg) < Distance(xs[i].deg))
  {
    i := 0;
    if xs != [] {
      var n := |xs| - 1;
      i := FarthestIs(xs[..n]);
      assert forall j :: 0 <= j < n ==> xs[..n][j] == xs[j];
      if Farthest(xs[..n]).NoVote? || (!Central(xs[n]) && Distance(Farthest(xs[..n]).sample.deg) < Distance(xs[n].deg)) {
        i := n;
      }
    }
  }

  /** A fit is found exactly when every tick is one the device has, there are two readings or
      more, and some pose is half a degree or more off centre. */
  lemma FittedIff(xs: seq<Sample>)
    ensures Fit(xs).Fitted? <==>
              (forall i :: 0 <= i < |xs| ==> 0 <= xs[i].tick <= 4095) && |xs| >= 2
              && exists i :: 0 <= i < |xs| && !(179.5 < xs[i].deg < 180.5)
  {
    var i := FarthestIs(xs);
    assert forall x: Sample :: Central(x) <==> 179.5 < x.deg < 180.5;
    NeverNoOffset(xs);
  }

  /** The sign is negative exactly when the farthest pose was read on the other side of the
      trimmed centre from where it lies; the trim is the median over all readings. */
  lemma FittedSign(xs: seq<Sample>)
    requires Fit(xs).Fitted?
    ensures var f, v := Fit(xs), Farthest(xs);
            v.Vote? && (f.sign == 1 || f.sign == -1) && f.trim == Median(Trims(xs, f.sign))
            && var read, lies := v.sample.tick - 2048 - FirstTrim(xs), Off(v.sample.deg);
               f.sign == -1 <==> (read < 0 && lies > 0) || (read > 0 && lies < 0)
  {
    var v := Farthest(xs).sample;
    var read, lies := v.tick - 2048 - FirstTrim(xs), Off(v.deg);
    SignOfProduct(read, lies);
  }

  lemma SignOfProduct(a: int, b: int)
    ensures a * b >= 0 <==> !((a < 0 && b > 0) || (a > 0 && b < 0))
  {
  }

  /** The residual adds up over the readings, each with the square of how far its tick is from
      the fitted one. */
  lemma {:induction false} ErrorsAdd(xs: seq<Sample>, ys: seq<Sample>, sign: int, trim: int)
    ensures ErrorSquares(xs + ys, sign, trim) == ErrorSquares(xs, sign, trim) + ErrorSquares(ys, sign, trim)
  {
    if ys == [] {
      assert xs + ys == xs;
    } else {
      var n := |ys| - 1;
      ErrorsAdd(xs, ys[..n], sign, trim);
      assert (xs + ys)[..|xs + ys| - 1] == xs + ys[..n];
    }
  }

  lemma ErrorOfOne(x: Sample, sign: int, trim: int)
    ensures var e := x.tick - (2048 + trim + sign * Off(x.deg)); ErrorSquares([x], sign, trim) == e * e
  {
    assert [x][..0] == [];
  }

  /** Once the sign is right, any strict majority of exact readings forces the exact trim. */
  lemma MajorityForcesTrim(xs: seq<Sample>, sign: int, trim: int)
    requires Fit(xs).Fitted? && Fit(xs).sign == sign && 2 * ExactCount(xs, sign, trim) > |xs|
    ensures Fit(xs).trim == trim
  {
    ExactTrims(xs, sign, trim);
    MedianOfMajority(Trims(xs, sign), trim);
  }

  /** A pose off centre is at least five ticks out, so its direction always shows. */
  lemma OffCentreMoves(deg: real)
    requires Distance(deg) >= 0.5
    ensures Off(deg) != 0
  {
    var x := (deg - 180.0) * TICKS_PER_DEG;
    assert TICKS_PER_DEG == 512.0 / 45.0;
    assert x >= 5.0 || x <= -5.0;
  }

  /** So the fit never fails for want of an offset. */
  lemma NeverNoOffset(xs: seq<Sample>)
    ensures Fit(xs) != NoOffset
  {
    var v := Farthest(xs);
    if v.Vote? {
      OffCentreMoves(v.sample.deg);
    }
  }

  predicate AllExact(xs: seq<Sample>, sign: int, trim: int) {
    forall i :: 0 <= i < |xs| ==> Exact(xs[i], sign, trim)
  }

  /** Poses in the centre band are at the exact centre. */
  predicate CentresExact(xs: seq<Sample>) {
    forall i :: 0 <= i < |xs| && Central(xs[i]) ==> xs[i].deg == 180.0
  }

  lemma OneMore(n: int, v: int)
    ensures (n + 1) * v == n * v + v
  {
  }

  lemma {:induction false} CentralReadings(xs: seq<Sample>, sign: int, trim: int)
    requires AllExact(xs, sign, trim) && CentresExact(xs)
    ensures CentralSum(xs) == CentralCount(xs) * (SERVO_CENTER_TICK + trim)
  {
    if xs != [] {
      var x := xs[|xs| - 1];
      CentralReadings(xs[..|xs| - 1], sign, trim);
      if Central(x) {
        RoundsExactly(0);
        assert Off(x.deg) == 0 && sign * 0 == 0;
        OneMore(CentralCount(xs[..|xs| - 1]), SERVO_CENTER_TICK + trim);
      }
    }
  }

  lemma {:induction false} CentralCounted(xs: seq<Sample>, i: nat)
    requires i < |xs| && Central(xs[i])
    ensures CentralCount(xs) > 0
  {
    if i < |xs| - 1 {
      CentralCounted(xs[..|xs| - 1], i);
    }
  }

  lemma MeanOfEqual(n: nat, v: int)
    requires n > 0
    ensures PyRound((n * v) as real / n as real) == v
  {
    assert (n * v) as real == n as real * v as real;
    assert (n * v) as real / n as real == v as real;
    RoundsExactly(v);
  }

  lemma {:induction false} FarthestFound(xs: seq<Sample>, i: nat)
    requires i < |xs| && !Central(xs[i])
    ensures Farthest(xs).Vote?
  {
    if i < |xs| - 1 {
      FarthestFound(xs[..|xs| - 1], i);
    }
  }

  lemma SquareNotNegative(x: int)
    ensures x * x >= 0 && (x != 0 ==> x * x > 0)
  {
  }

  /** The direction of an exact reading off centre is the sign. */
  lemma ExactSign(v: Sample, sign: int, trim: int)
    requires Exact(v, sign, trim) && Off(v.deg) != 0 && (sign == 1 || sign == -1)
    ensures SignOf(v, trim) == sign
  {
    var o := Off(v.deg);
    SquareNotNegative(o);
    assert (v.tick - SERVO_CENTER_TICK - trim) * o == sign * o * o == sign * (o * o);
  }

  lemma {:induction false} AllCounted(xs: seq<Sample>, sign: int, trim: int)
    requires AllExact(xs, sign, trim)
    ensures ExactCount(xs, sign, trim) == |xs|
  {
    if xs != [] {
      AllCounted(xs[..|xs| - 1], sign, trim);
    }
  }

  lemma ExactHasNoResidual(x: Sample, sign: int, trim: int)
    requires Exact(x, sign, trim)
    ensures var e := x.tick - (SERVO_CENTER_TICK + trim + sign * Off(x.deg)); e * e == 0
  {
  }

  lemma {:induction false} NoResidual(xs: seq<Sample>, sign: int, trim: int)
    requires AllExact(xs, sign, trim)
    ensures ErrorSquares(xs, sign, trim) == 0
  {
    if xs != [] {
      NoResidual(xs[..|xs| - 1], sign, trim);
      ExactHasNoResidual(xs[|xs| - 1], sign, trim);
    }
  }

  /** From exact readings that include the exact centre and a pose off it, with nothing else
      in the centre band, the fit recovers sign and trim with no residual. */
  lemma ExactFit(xs: seq<Sample>, sign: int, trim: int, centre: nat, outer: nat)
    requires InDevice(xs) && AllExact(xs, sign, trim) && CentresExact(xs) && (sign == 1 || sign == -1)
    requires centre < |xs| && Central(xs[centre]) && outer < |xs| && !Central(xs[outer])
    ensures Fit(xs) == Fitted(sign, trim, 0)
  {
    CentralCounted(xs, centre);
    CentralReadings(xs, sign, trim);
    MeanOfEqual(CentralCount(xs), SERVO_CENTER_TICK + trim);
    FarthestFound(xs, outer);
    var v := Farthest(xs).sample;
    OffCentreMoves(v.deg);
    assert Exact(v, sign, trim);
    ExactSign(v, sign, trim);
    AllCounted(xs, sign, trim);
    NoResidual(xs, sign, trim);
    MajorityForcesTrim(xs, sign, trim);
  }

  // ---------- The procedure ----------

  /** One pass for the centre readings and the pose farthest out. */
  method Survey(xs: seq<Sample>) returns (sum: int, n: nat, far: Vote)
    ensures sum == CentralSum(xs) && n == CentralCount(xs) && far == Farthest(xs)
  {
    sum, n, far := 0, 0, NoVote;
    for i := 0 to |xs|
      invariant sum == CentralSum(xs[..i]) && n == CentralCount(xs[..i]) && far == Farthest(xs[..i])
    {
      var x := xs[i];
      assert xs[..i + 1][..i] == xs[..i];
      if Central(x) {
        sum, n := sum + x.tick, n + 1;
      } else if far.NoVote? || Distance(far.sample.deg) < Distance(x.deg) {
        far := Vote(x);
      }
    }
    assert xs[..|xs|] == xs;
  }

  method CollectTrims(xs: seq<Sample>, sign: int) returns (trims: seq<int>)
    ensures trims == Trims(xs, sign)
  {
    trims := [];
    for i := 0 to |xs|
      invariant |trims| == i && forall k :: 0 <= k < i ==> trims[k] == Trims(xs, sign)[k]
    {
      trims := trims + [xs[i].tick - SERVO_CENTER_TICK - sign * Off(xs[i].deg)];
    }
  }

  method SumErrors(xs: seq<Sample>, sign: int, trim: int) returns (errors: int)
    ensures errors == ErrorSquares(xs, sign, trim)
  {
    errors := 0;
    for i := 0 to |xs|
      invariant errors == ErrorSquares(xs[..i], sign, trim)
    {
      assert xs[..i + 1][..i] == xs[..i];
      var e := xs[i].tick - (SERVO_CENTER_TICK + trim + sign * Off(xs[i].deg));
      errors := errors + e * e;
    }
    assert xs[..|xs|] == xs;
  }

  /** `fit_servo_sign_trim`. */
  method FitServoSignTrim(xs: seq<Sample>) returns (r: Result)
    ensures r == Fit(xs)
  {
    for i := 0 to |xs|
      invariant forall k :: 0 <= k < i ==> 0 <= xs[k].tick <= SERVO_MAX_TICK
    {
      if xs[i].tick < 0 || xs[i].tick > SERVO_MAX_TICK {
        return TickOutside;
      }
    }
    if |xs| < 2 {
      return TooFew;
    }
    var sum, n, far := Survey(xs);
    if far.NoVote? {
      return OnlyCentral;
    }
    var trim := if n == 0 then 0 else PyRound(sum as real / n as real) - SERVO_CENTER_TICK;
    if Off(far.sample.deg) == 0 {
      return NoOffset;
    }
    var sign := SignOf(far.sample, trim);
    var trims := CollectTrims(xs, sign);
    trim := Median(trims);
    var errors := SumErrors(xs, sign, trim);
    return Fitted(sign, trim, errors);
  }
}
