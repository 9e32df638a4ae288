/** The life of a visual map point: its observations and its reference patch (visual_point.cpp, vio.cpp). */
module VisualPoints {

  /**
   A floating-point score. Correlating a patch of one intensity divides zero by zero, so a score need not be a number;
   rounding is left out, and an infinity is a number beyond the greatest float.
   */
  datatype Float = NaN | Num(value: real)

  /** The comparison a < b of floats, which fails when either is no number. */
  predicate Less(a: Float, b: Float) {
    a.Num? && b.Num? && a.value < b.value
  }

  const FLT_MAX: real := 340282346638528859811704183484516925440.0

  /** An observation: the frame it was made in and the image patch around it. */
  class Feature {
    const id: int
    const patch: seq<real>
    var score: Float

    constructor (id: int, patch: seq<real>)
      ensures this.id == id && this.patch == patch && score == Num(0.0)
    {
      this.id, this.patch, score := id, patch, Num(0.0);
    }
  }

  // ----- lists of observations

  /** Observations are pushed in front, so their frames go down strictly. */
  predicate NewestFirst(obs: seq<Feature>) {
    forall i, j :: 0 <= i < j < |obs| ==> obs[i].id > obs[j].id
  }

  /** The list without its first occurrence of `f`. */
  function Without(obs: seq<Feature>, f: Feature?): (r: seq<Feature>)
    ensures forall g :: g in r ==> g in obs
  {
    if obs == [] then [] else if obs[0] == f then obs[1..] else [obs[0]] + Without(obs[1..], f)
  }

  /** The occurrences of `f` alone. */
  function Only(obs: seq<Feature>, f: Feature?): (r: seq<Feature>)
    ensures forall g :: g in r ==> g in obs && g == f
  {
    if obs == [] then [] else (if obs[0] == f then [obs[0]] else []) + Only(obs[1..], f)
  }

  lemma HeadNewest(obs: seq<Feature>)
    requires NewestFirst(obs) && obs != []
    ensures NewestFirst(obs[1..]) && forall g :: g in obs[1..] ==> obs[0].id > g.id
    ensures forall g :: g in obs <==> g == obs[0] || g in obs[1..]
  {
    assert obs == [obs[0]] + obs[1..];
  }

  lemma FrontNewest(f: Feature, rest: seq<Feature>)
    requires NewestFirst(rest) && forall g :: g in rest ==> g.id < f.id
    ensures NewestFirst([f] + rest) && forall g :: g in [f] + rest <==> g == f || g in rest
  {
  }

  lemma {:induction false} WithoutKeeps(obs: seq<Feature>, f: Feature)
    requires NewestFirst(obs) && f in obs
    ensures NewestFirst(Without(obs, f)) && |Without(obs, f)| == |obs| - 1
    ensures forall g :: g in Without(obs, f) <==> g in obs && g != f
  {
    hide NewestFirst;
    HeadNewest(obs);
    if obs[0] != f {
      WithoutKeeps(obs[1..], f);
      FrontNewest(obs[0], Without(obs[1..], f));
    }
  }

  lemma {:induction false} OnlyOne(obs: seq<Feature>, f: Feature?)
    requires NewestFirst(obs)
    ensures Only(obs, f) == if f in obs then [f] else []
  {
    if obs != [] {
      HeadNewest(obs);
      OnlyOne(obs[1..], f);
    }
  }

  /** Without a reference, shedding all observations but the reference sheds all. */
  lemma {:induction false} OnlyNull(obs: seq<Feature>)
    ensures Only(obs, null) == []
  {
    if obs != [] {
      OnlyNull(obs[1..]);
    }
  }

  lemma WithoutStep(obs: seq<Feature>, i: nat, f: Feature)
    requires i < |obs|
    ensures obs[i] == f ==> obs[..i] + Without(obs[i..], f) == obs[..i] + obs[i + 1..]
    ensures obs[i] != f ==> obs[..i] + Without(obs[i..], f) == obs[..i + 1] + Without(obs[i + 1..], f)
  {
    assert obs[..i + 1] == obs[..i] + [obs[i]];
  }

  lemma OnlyStep(obs: seq<Feature>, i: nat, f: Feature?)
    requires i < |obs|
    ensures var rest := obs[..i] + obs[i + 1..];
            obs[i] != f ==> obs[..i] + Only(obs[i..], f) == rest[..i] + Only(rest[i..], f)
    ensures obs[i] == f ==> obs[..i] + Only(obs[i..], f) == obs[..i + 1] + Only(obs[i + 1..], f)
  {
    var rest := obs[..i] + obs[i + 1..];
    assert rest[..i] == obs[..i] && rest[i..] == obs[i + 1..];
    assert obs[..i + 1] == obs[..i] + [obs[i]];
  }

  // ----- photometric errors

  /** A patch holds pixel intensities. */
  predicate Pixels(patch: seq<real>) {
    |patch| <= 0x1_0000 && forall i :: 0 <= i < |patch| ==> 0.0 <= patch[i] <= 255.0
  }

  predicate Comparable(obs: seq<Feature>) {
    && (forall f :: f in obs ==> Pixels(f.patch))
    && (forall f, g :: f in obs && g in obs ==> |f.patch| == |g.patch|)
  }

  function Squared(x: real): real {
    x * x
  }

  function SquaredDifference(a: seq<real>, b: seq<real>, n: nat): real
    requires n <= |a| && n <= |b|
  {
    if n == 0 then 0.0 else SquaredDifference(a, b, n - 1) + Squared(a[n - 1] - b[n - 1])
  }

  /** Squared differences of patch k to the patches of other frames, among the first m. */
  ghost function TotalError(obs: seq<Feature>, k: nat, m: nat): real
    requires Comparable(obs) && k < |obs| && m <= |obs|
  {
    if m == 0 then 0.0
    else
      TotalError(obs, k, m - 1) +
      if obs[m - 1].id == obs[k].id then 0.0
      else SquaredDifference(obs[k].patch, obs[m - 1].patch, |obs[k].patch|)
  }

  ghost function Others(obs: seq<Feature>, k: nat, m: nat): nat
    requires k < |obs| && m <= |obs|
  {
    if m == 0 then 0 else Others(obs, k, m - 1) + if obs[m - 1].id == obs[k].id then 0 else 1
  }

  lemma {:induction false} OthersExist(obs: seq<Feature>, k: nat, m: nat)
    requires NewestFirst(obs) && k < |obs| && m <= |obs|
    ensures Others(obs, k, m) == if k < m then m - 1 else m
  {
    if m > 0 {
      OthersExist(obs, k, m - 1);
      if k < m - 1 {
        assert obs[k].id > obs[m - 1].id;
      } else if m - 1 < k {
        assert obs[m - 1].id > obs[k].id;
      }
    }
  }

  ghost function MeanError(obs: seq<Feature>, k: nat): real
    requires NewestFirst(obs) && Comparable(obs) && k < |obs| && |obs| >= 2
  {
    OthersExist(obs, k, |obs|);
    TotalError(obs, k, |obs|) / Others(obs, k, |obs|) as real
  }

  lemma Square(x: real)
    requires -255.0 <= x <= 255.0
    ensures 0.0 <= Squared(x) <= 65025.0
  {
    if x >= 0.0 {
      assert x * x <= x * 255.0;
    } else {
      assert (-x) * (-x) <= (-x) * 255.0;
    }
  }

  lemma {:induction false} DifferenceBounded(a: seq<real>, b: seq<real>, n: nat)
    requires n <= |a| && n <= |b| && Pixels(a) && Pixels(b)
    ensures 0.0 <= SquaredDifference(a, b, n) <= 65025.0 * n as real
  {
    hide Squared;
    if n > 0 {
      DifferenceBounded(a, b, n - 1);
      Square(a[n - 1] - b[n - 1]);
    }
  }

  lemma {:induction false} TotalBounded(obs: seq<Feature>, k: nat, m: nat)
    requires Comparable(obs) && k < |obs| && m <= |obs|
    ensures 0.0 <= TotalError(obs, k, m) <= 65025.0 * 65536.0 * m as real
  {
    if m > 0 {
      TotalBounded(obs, k, m - 1);
      DifferenceBounded(obs[k].patch, obs[m - 1].patch, |obs[k].patch|);
    }
  }

  lemma Product(q: real, r: real, x: real)
    requires r >= 1.0 && q * r == x && x >= 0.0
    ensures q <= x
  {
    var p := q * (r - 1.0);
    assert p == x - q;
    Signs(q, r - 1.0);
  }

  lemma Signs(q: real, r: real)
    requires r >= 0.0
    ensures q >= 0.0 ==> q * r >= 0.0
  {
  }

  lemma DivideBack(x: real, r: real)
    requires r > 0.0
    ensures x / r * r == x
  {
  }

  lemma Quotient(x: real, n: nat)
    requires 0.0 <= x && n > 0
    ensures x / n as real <= x
  {
    DivideBack(x, n as real);
    Product(x / n as real, n as real, x);
  }

  /** Errors of pixel patches stay below the greatest float, the value the search for the least error starts from. */
  lemma ErrorBounded(obs: seq<Feature>, k: nat)
    requires NewestFirst(obs) && Comparable(obs) && k < |obs| && 2 <= |obs| <= 30
    ensures MeanError(obs, k) < FLT_MAX
  {
    OthersExist(obs, k, |obs|);
    TotalBounded(obs, k, |obs|);
    Quotient(TotalError(obs, k, |obs|), Others(obs, k, |obs|));
  }

  /** Observation k differs least from the others on average, and is the first in the list to do so. */
  ghost predicate BestReference(obs: seq<Feature>, k: nat)
    requires NewestFirst(obs) && Comparable(obs) && k < |obs| && |obs| >= 2
  {
    && (forall j :: 0 <= j < |obs| ==> MeanError(obs, k) <= MeanError(obs, j))
    && (forall j :: 0 <= j < k ==> MeanError(obs, k) < MeanError(obs, j))
  }

  /**
   Observation k has the least score below FLT_MAX and is the first with it; it is the newest when no score is below.
   Scores that are no numbers take no part.
   */
  ghost predicate LeastScore(obs: seq<Feature>, k: nat)
    reads obs
  {
    && k < |obs|
    && if forall g :: g in obs ==> !Less(g.score, Num(FLT_MAX)) then k == 0
       else
         && obs[k].score.Num?
         && (forall j :: 0 <= j < |obs| ==> !Less(obs[j].score, obs[k].score))
         && (forall j :: 0 <= j < k && obs[j].score.Num? ==> Less(obs[k].score, obs[j].score))
  }

  /** Score k is the greatest number above -1000 and the first of them. */
  predicate FirstMax(scores: seq<Float>, k: nat) {
    && k < |scores| && Less(Num(-1000.0), scores[k])
    && (forall j :: 0 <= j < |scores| ==> !Less(scores[k], scores[j]))
    && (forall j :: 0 <= j < k && scores[j].Num? ==> Less(scores[j], scores[k]))
  }

  /** Some score is a number above -1000. */
  predicate SomeScore(scores: seq<Float>) {
    exists i :: 0 <= i < |scores| && Less(Num(-1000.0), scores[i])
  }

  // ----- the point

  class VisualPoint {
    var obs: seq<Feature>
    var refPatch: Feature?
    var hasRef: bool
    var converged: bool

    /** What holds between frames. */
    ghost predicate Valid()
      reads this
    {
      && 1 <= |obs| <= 30
      && NewestFirst(obs) && Comparable(obs)
      && (hasRef <==> refPatch != null)
      && (hasRef ==> refPatch in obs)
    }

    /** A converged point has the reference that it is going to be reduced to. */
    predicate Anchored()
      reads this
    {
      converged ==> hasRef
    }

    /** A new point of generateVisualMapPoints, with the observation that made it. */
    constructor (first: Feature)
      requires Pixels(first.patch)
      ensures Valid() && obs == [first] && !hasRef && !converged
    {
      obs, refPatch, hasRef, converged := [], null, false, false;
      new;
      AddFrameRef(first);
    }

    method AddFrameRef(f: Feature)
      modifies this`obs
      ensures obs == [f] + old(obs)
    {
      obs := [f] + obs;
    }

    /** Drops an observation, and the reference with it when it is the reference. */
    method DeleteFeatureRef(f: Feature)
      modifies this`obs, this`refPatch, this`hasRef
      ensures obs == Without(old(obs), f)
      ensures refPatch == (if old(refPatch) == f then null else old(refPatch))
      ensures hasRef == (old(hasRef) && old(refPatch) != f)
    {
      if refPatch == f {
        refPatch := null;
        hasRef := false;
      }
      ghost var all := obs;
      var i := 0;
      while i < |obs|
        invariant i <= |obs| && obs == all
        invariant all[..i] + Without(all[i..], f) == Without(all, f)
        modifies this`obs
      {
        hide Without;
        WithoutStep(obs, i, f);
        if obs[i] == f {
          obs := obs[..i] + obs[i + 1..];
          return;
        }
        i := i + 1;
      }
      assert all[..i] == all && all[i..] == [];
    }

    /** The first observation with the least score below the greatest float; the newest if there is none. */
    method FindMinScoreFeature() returns (f: Feature)
      requires obs != []
      ensures exists at: nat :: LeastScore(obs, at) && f == obs[at]
    {
      ghost var at := 0;
      f := obs[0];
      var least := Num(FLT_MAX);
      for i := 0 to |obs|
        invariant at < |obs| && f == obs[at]
        invariant least.Num? && if least == Num(FLT_MAX) then at == 0 else f.score == least && Less(least, Num(FLT_MAX))
        invariant forall j :: 0 <= j < i ==> !Less(obs[j].score, least)
        invariant forall j :: 0 <= j < at && obs[j].score.Num? ==> Less(least, obs[j].score)
      {
        if Less(obs[i].score, least) {
          least := obs[i].score;
          f, at := obs[i], i;
        }
      }
      assert LeastScore(obs, at);
    }

    /** Every observation but the reference goes. */
    method DeleteNonRefPatchFeatures()
      modifies this`obs
      ensures obs == Only(old(obs), refPatch)
    {
      var i := 0;
      while i < |obs|
        invariant i <= |obs|
        invariant obs[..i] + Only(obs[i..], refPatch) == Only(old(obs), refPatch)
        decreases |obs| - i
      {
        hide Only;
        OnlyStep(obs, i, refPatch);
        if obs[i] != refPatch {
          obs := obs[..i] + obs[i + 1..];
        } else {
          i := i + 1;
        }
      }
    }

    // ----- one frame

    /**
     The choice of a reference when the point is retrieved: the only observation, the reference there is already, or
     the observation that differs least from the others.
     */
    method ChooseReference()
      requires Valid()
      modifies this`refPatch, this`hasRef
      ensures Valid() && hasRef
      ensures |obs| == 1 ==> refPatch == obs[0]
      ensures old(hasRef) ==> refPatch == old(refPatch)
      ensures |obs| >= 2 && !old(hasRef) ==> exists k :: 0 <= k < |obs| && BestReference(obs, k) && refPatch == obs[k]
    {
      if |obs| == 1 {
        refPatch, hasRef := obs[0], true;
      } else if !hasRef {
        var least := FLT_MAX;
        var at := 0;
        for k := 0 to |obs|
          invariant 0 <= at < |obs|
          invariant k > 0 ==> at < k && least == MeanError(obs, at)
          invariant k == 0 ==> least == FLT_MAX
          invariant forall j :: 0 <= j < k ==> least <= MeanError(obs, j)
          invariant forall j :: 0 <= j < at ==> least < MeanError(obs, j)
          modifies {}
        {
          var error := Photometric(k);
          ErrorBounded(obs, k);
          if error < least {
            least, at := error, k;
          }
        }
        assert BestReference(obs, at);
        refPatch, hasRef := obs[at], true;
      }
    }

    /** The mean squared difference of one observation's patch to those of the other frames. */
    method Photometric(k: nat) returns (error: real)
      requires Valid() && |obs| >= 2 && k < |obs|
      ensures error == MeanError(obs, k)
    {
      var patch := obs[k].patch;
      var total, count := 0.0, 0;
      for m := 0 to |obs|
        invariant total == TotalError(obs, k, m) && count == Others(obs, k, m)
      {
        if obs[m].id != obs[k].id {
          for i := 0 to |patch|
            invariant total == TotalError(obs, k, m) + SquaredDifference(patch, obs[m].patch, i)
          {
            total := total + (patch[i] - obs[m].patch[i]) * (patch[i] - obs[m].patch[i]);
          }
          count := count + 1;
        }
      }
      OthersExist(obs, k, |obs|);
      error := total / count as real;
    }

    /** getCloseViewObs: the observation made from the direction nearest to the camera's, if that is near enough. */
    method CloseViewObs(cosines: seq<Float>) returns (found: bool, f: Feature?)
      requires |cosines| == |obs|
      ensures found <==> exists i :: 0 <= i < |obs| && Close(cosines[i])
      ensures found ==> exists k: nat :: FirstMax(cosines, k) && f == obs[k]
    {
      if obs == [] {
        return false, null;
      }
      var greatest := Num(0.0);
      var at := 0;
      for i := 0 to |obs|
        invariant at < |obs| && greatest.Num? && greatest.value >= 0.0
        invariant forall j :: 0 <= j < i ==> !Less(greatest, cosines[j])
        invariant greatest.value > 0.0 ==>
                    && at < i && cosines[at] == greatest
                    && forall j :: 0 <= j < at && cosines[j].Num? ==> Less(cosines[j], greatest)
      {
        if Less(greatest, cosines[i]) {
          greatest, at := cosines[i], i;
        }
      }
      f := obs[at];
      if Less(greatest, Num(0.5)) {
        return false, f;
      }
      assert FirstMax(cosines, at);
      found := true;
    }

    /** At 30 observations the one with the least score is given up, and the reference with it if it is that one. */
    method MakeRoom() returns (ghost at: nat)
      requires Valid() && !converged
      modifies this`obs, this`refPatch, this`hasRef
      ensures Valid() && |obs| < 30
      ensures if |old(obs)| == 30 then
                && old(LeastScore(obs, at)) && obs == Without(old(obs), old(obs)[at])
                && refPatch == if old(refPatch) == old(obs)[at] then null else old(refPatch)
              else
                obs == old(obs) && refPatch == old(refPatch)
    {
      at := 0;
      if |obs| >= 30 {
        hide LeastScore;
        hide NewestFirst;
        hide Comparable;
        hide Without;
        var f := FindMinScoreFeature();
        at :| LeastScore(obs, at) && f == obs[at];
        AtIndex(obs, at);
        WithoutKeeps(obs, f);
        Fewer(obs, Without(obs, f));
        DeleteFeatureRef(f);
      }
    }

    /**
     updateVisualMapPoints for one point. `add` is its decision that the view moved far enough from the oldest
     observation. A converged point sheds all observations but the reference, which leaves one exactly when there is a
     reference; another point makes room, and then gains the new observation in front if it is to be added.
     */
    method Observe(add: bool, frame: int, patch: seq<real>)
      returns (added: bool, ghost at: nat, ghost kept: seq<Feature>)
      requires Valid() && Pixels(patch) && forall f :: f in obs ==> f.id < frame && |f.patch| == |patch|
      modifies this
      ensures (Valid() <==> old(Anchored())) && converged == old(converged) && added == (add && !converged)
      ensures converged ==>
                obs == (if old(hasRef) then [refPatch] else []) && refPatch == old(refPatch) && hasRef == old(hasRef)
      ensures !converged ==>
                if |old(obs)| == 30 then
                  && old(LeastScore(obs, at)) && kept == Without(old(obs), old(obs)[at])
                  && refPatch == if old(refPatch) == old(obs)[at] then null else old(refPatch)
                else
                  kept == old(obs) && refPatch == old(refPatch)
      ensures added ==>
                |obs| == |kept| + 1 && obs[1..] == kept && obs[0].id == frame && obs[0].patch == patch && fresh(obs[0])
      ensures !converged && !added ==> obs == kept
      ensures forall f :: f in obs ==>
                f.id <= frame && |f.patch| == |patch| && (f in old(obs) || (fresh(f) && f.id == frame))
    {
      hide LeastScore;
      hide Without;
      hide NewestFirst;
      hide Comparable;
      added, at, kept := add && !converged, 0, obs;
      if converged {
        Shed();
      } else {
        at := MakeRoom();
        kept := obs;
        assert forall f :: f in kept ==> f in old(obs);
        if add {
          var f := new Feature(frame, patch);
          InFront(f, kept);
          AddFrameRef(f);
        }
      }
    }

    /** Only the reference stays, and nothing when there is none. */
    method Shed()
      requires Valid()
      modifies this`obs
      ensures obs == if hasRef then [refPatch] else []
      ensures Valid() <==> hasRef
    {
      if hasRef {
        OnlyOne(obs, refPatch);
        Fewer(obs, [refPatch]);
        Single(refPatch);
      } else {
        OnlyNull(obs);
      }
      DeleteNonRefPatchFeatures();
    }

    /**
     updateReferencePatch for one point. `settled` says that its normal has stopped changing; `scores` are the scores
     of the observations, NCC plus view angle. The best observation becomes the reference; the point ends up converged
     without one exactly when it converges, had none, and no score is a number above -1000.
     */
    method Rescore(added: bool, settled: bool, scores: seq<Float>)
      requires (Valid() || converged) && |scores| == |obs|
      modifies this`refPatch, this`hasRef, this`converged, obs
      ensures (Valid() <==> old(Valid())) && obs == old(obs)
      ensures if old(converged || |obs| <= 5) || !added then
                refPatch == old(refPatch) && hasRef == old(hasRef) && converged == old(converged)
              else
                && converged == (settled && |obs| > 10)
                && (forall i :: 0 <= i < |obs| ==> obs[i].score == scores[i])
                && if SomeScore(scores) then hasRef && exists k: nat :: FirstMax(scores, k) && refPatch == obs[k]
                   else refPatch == old(refPatch) && hasRef == old(hasRef)
      ensures Anchored() <==>
                if old(converged || |obs| <= 5) || !added then old(Anchored())
                else !(settled && |obs| > 10) || old(hasRef) || SomeScore(scores)
    {
      if converged || |obs| <= 5 || !added {
        return;
      }
      if settled && |obs| > 10 {
        converged := true;
      }
      var max := Num(-1000.0);
      ghost var at := 0;
      for i := 0 to |obs|
        invariant obs == old(obs) && converged == (settled && |obs| > 10)
        invariant forall j :: 0 <= j < i ==> obs[j].score == scores[j]
        invariant max.Num? && !Less(max, Num(-1000.0)) && forall j :: 0 <= j < i ==> !Less(max, scores[j])
        invariant if Less(Num(-1000.0), max) then
                    && at < i && scores[at] == max
                    && (forall j :: 0 <= j < at && scores[j].Num? ==> Less(scores[j], max))
                    && hasRef && refPatch == obs[at]
                  else
                    hasRef == old(hasRef) && refPatch == old(refPatch)
      {
        obs[i].score := scores[i];
        if Less(max, scores[i]) {
          max, at := scores[i], i;
          refPatch, hasRef := obs[i], true;
        }
      }
      assert Less(Num(-1000.0), max) ==> FirstMax(scores, at);
    }

    // ----- whole frames

    /** The frame is newer than every observation, and its patch is what an image delivers. */
    predicate Fits(input: FrameInput)
      reads this
    {
      Pixels(input.patch) && forall f :: f in obs ==> f.id < input.id && |f.patch| == |input.patch|
    }

    method Scores(score: int -> Float) returns (scores: seq<Float>)
      ensures |scores| == |obs| && forall i :: 0 <= i < |obs| ==> scores[i] == score(obs[i].id)
    {
      scores := [];
      for i := 0 to |obs|
        invariant |scores| == i && forall j :: 0 <= j < i ==> scores[j] == score(obs[j].id)
      {
        scores := scores + [score(obs[i].id)];
      }
    }

    /** The two updates of a point of the visual submap. */
    method UpdatePoint(input: FrameInput)
      requires Valid() && Fits(input) && input.retrieved && input.kept
      modifies this, obs
      ensures Valid() <==> old(Anchored())
      ensures forall f :: f in obs ==>
                f.id <= input.id && |f.patch| == |input.patch| && (f in old(obs) || (fresh(f) && f.id == input.id))
      ensures old(converged) ==>
                converged && hasRef == old(hasRef) && refPatch == old(refPatch) && (hasRef ==> obs == [refPatch])
      ensures old(Anchored()) && !Anchored() ==> Spoils(input, Ids(obs)) && (old(hasRef) ==> |old(obs)| == 30)
      ensures !Valid() ==> Dead()
    {
      hide NewestFirst;
      hide Comparable;
      hide LeastScore;
      hide Without;
      hide FirstMax;
      var added, at, kept := Observe(input.add, input.id, input.patch);
      var scores := Scores(input.score);
      Rescore(added, input.settled, scores);
      if old(Anchored()) && !Anchored() {
        assert forall k :: 0 <= k < |obs| ==> scores[k] == input.score(obs[k].id) && Ids(obs)[k] == obs[k].id;
        assert Ids(obs)[0] == input.id;
        IdsDescend(obs);
      }
    }

    /** Nothing is left of the point but itself; without normals it is never retrieved again. */
    predicate Dead()
      reads this
    {
      converged && !hasRef && refPatch == null && obs == []
    }

    /** The frame gets to the point: with normals always, without only if it was seen from nearby. */
    predicate Reached(normalEn: bool, input: FrameInput)
      reads this
    {
      input.retrieved && (normalEn || exists f :: f in obs && Close(input.view(f.id)))
    }

    /**
     processFrame, as far as it touches one point: `retrieved` when the choice of a reference is reached, `kept` when
     the point also enters the visual submap. The point survives the frame exactly when it is not reduced to a
     reference that it does not have; with `normalEn` it always gets one first.
     */
    method ProcessFrame(normalEn: bool, input: FrameInput)
      requires (Valid() || (Dead() && !normalEn)) && Fits(input)
      modifies this, obs
      ensures Valid() <==>
                old(Valid()) && (old(Reached(normalEn, input)) && input.kept && !normalEn ==> old(Anchored()))
      ensures Valid() || Dead()
      ensures forall f :: f in obs ==>
                f.id <= input.id && |f.patch| == |input.patch| && (f in old(obs) || (fresh(f) && f.id == input.id))
      ensures old(converged) ==> converged && (old(hasRef) ==> hasRef && refPatch == old(refPatch))
      ensures old(Valid() && converged && hasRef && Reached(normalEn, input)) && input.kept ==> obs == [refPatch]
      ensures old(Anchored()) && !Anchored() ==> Spoils(input, Ids(obs))
      ensures old(Valid() && Anchored()) && normalEn && |old(obs)| < 30 ==> Anchored()
    {
      if input.retrieved {
        if normalEn {
          ChooseReference();
        } else {
          var cosines := Scores(input.view);
          var found, f := CloseViewObs(cosines);
          assert found <==> Reached(normalEn, input);
          if !found {
            return;
          }
        }
        if input.kept {
          UpdatePoint(input);
        }
      }
    }

    /** A point converges without a reference when no score is a number, and then the next frame takes everything. */
    method LosesAll(first: FrameInput, second: FrameInput)
      requires Valid() && !hasRef && !converged && 10 <= |obs| < 30
      requires Fits(first) && first.add && first.settled && first.id < second.id
      requires Pixels(second.patch) && |second.patch| == |first.patch| && forall id :: first.score(id) == NaN
      modifies this, obs
      ensures converged && !hasRef && obs == []
    {
      hide NewestFirst;
      hide Comparable;
      hide LeastScore;
      hide Without;
      hide FirstMax;
      var added, at, kept := Observe(first.add, first.id, first.patch);
      var scores := Scores(first.score);
      Rescore(added, first.settled, scores);
      var added', at', kept' := Observe(second.add, second.id, second.patch);
    }

    /**
     The life of a point over any sequence of frames: it always has between 1 and 30 observations, its reference is one
     of them, and once it has converged the reference is never lost or replaced. Without `normalEn` there is one other
     end: nothing is left of it, after some frame scored none of its observations with a number, the new one among them.
     */
    method Live(normalEn: bool, frames: seq<FrameInput>)
      requires Valid() && (frames != [] ==> Fits(frames[0])) && Ordered(frames)
      modifies this, obs
      ensures Valid() || (!normalEn && Dead())
      ensures !Valid() && old(Anchored()) ==>
                exists k, ids :: 0 <= k < |frames| && Spoils(frames[k], ids) && From(ids, old(Ids(obs)), frames, k + 1)
      ensures old(converged) ==> converged && (old(hasRef) ==> Valid() && hasRef && refPatch == old(refPatch))
    {
      for i := 0 to |frames|
        invariant (Valid() || (!normalEn && Dead())) && (i < |frames| ==> Fits(frames[i]))
        invariant forall f :: f in obs ==> fresh(f) || f in old(obs)
        invariant old(converged) ==> converged && (old(hasRef) ==> hasRef && refPatch == old(refPatch))
        invariant From(Ids(obs), old(Ids(obs)), frames, i)
        invariant old(Anchored()) && !Anchored() ==>
                    exists k, ids :: 0 <= k < i && Spoils(frames[k], ids) && From(ids, old(Ids(obs)), frames, k + 1)
      {
        ghost var before := Ids(obs);
        forall f | f in obs ensures f.id in before {
          IdIn(obs, f);
        }
        assert forall j :: 0 <= j < |obs| ==> fresh(obs[j]) || obs[j] in old(obs);
        ProcessFrame(normalEn, frames[i]);
        forall id | id in Ids(obs) ensures id in before || frames[i].id == id {
          var j :| 0 <= j < |obs| && obs[j].id == id;
        }
      }
    }
  }

  datatype FrameInput = FrameInput(id: int, retrieved: bool, kept: bool, add: bool, patch: seq<real>, settled: bool,
                                   score: int -> Float, view: int -> Float)

  /** The cosine of two viewing directions at most 60 degrees apart. */
  predicate Close(cosine: Float) {
    cosine.Num? && cosine.value >= 0.5
  }

  function Ids(obs: seq<Feature>): seq<int> {
    seq(|obs|, i requires 0 <= i < |obs| => obs[i].id)
  }

  /** The frame lets a point with more than ten observations converge, and gives none of them a number above -1000. */
  predicate Spoils(input: FrameInput, ids: seq<int>) {
    && input.retrieved && input.kept && input.add && input.settled
    && |ids| > 10 && (forall i, j :: 0 <= i < j < |ids| ==> ids[i] > ids[j])
    && input.id in ids && forall id :: id in ids ==> !Less(Num(-1000.0), input.score(id))
  }

  /** Observations come from the first ones and from frames up to number `k`. */
  predicate From(ids: seq<int>, first: seq<int>, frames: seq<FrameInput>, k: nat) {
    forall id :: id in ids ==> id in first || exists j :: 0 <= j < k && j < |frames| && frames[j].id == id
  }

  /** Frame numbers go up, and patches have one size. */
  predicate Ordered(frames: seq<FrameInput>) {
    && (forall i, j :: 0 <= i < j < |frames| ==> frames[i].id < frames[j].id && |frames[i].patch| == |frames[j].patch|)
    && (forall i :: 0 <= i < |frames| ==> Pixels(frames[i].patch))
  }

  lemma IdsDescend(obs: seq<Feature>)
    requires NewestFirst(obs)
    ensures forall i, j :: 0 <= i < j < |obs| ==> Ids(obs)[i] > Ids(obs)[j]
  {
  }

  lemma IdIn(obs: seq<Feature>, f: Feature)
    requires f in obs
    ensures f.id in Ids(obs)
  {
    var j :| 0 <= j < |obs| && obs[j] == f;
    assert Ids(obs)[j] == f.id;
  }

  lemma AtIndex(obs: seq<Feature>, at: nat)
    requires LeastScore(obs, at)
    ensures at < |obs|
  {
  }

  lemma InFront(f: Feature, kept: seq<Feature>)
    requires NewestFirst(kept) && Comparable(kept) && Pixels(f.patch)
    requires forall g :: g in kept ==> g.id < f.id && |g.patch| == |f.patch|
    ensures NewestFirst([f] + kept) && Comparable([f] + kept)
  {
    FrontNewest(f, kept);
  }

  lemma Fewer(obs: seq<Feature>, kept: seq<Feature>)
    requires Comparable(obs) && forall f :: f in kept ==> f in obs
    ensures Comparable(kept)
  {
  }

  lemma Single(f: Feature)
    ensures NewestFirst([f])
  {
  }
}
