/**
 The life of one expiring Redis counter, told from the times of the commands
 that touched it: when is its count lost, because it was charged after its key
 had expired?
 */
module KeyLives {

  /**
   A command on the key. INCRBYFLOAT charges it, EXPIRE renews its expiry, and
   the script does both at once.
   */
  datatype Touch = Touch(at: nat, charges: bool, renews: bool)

  /** Is the key there, and until when? */
  datatype Life = Absent | Forever | Until(end: nat)

  ghost predicate LapsesAt(life: Life, t: Touch) {
    t.charges && life.Until? && t.at >= life.end
  }

  ghost function LifeAfter(life: Life, t: Touch, ttl: nat): Life {
    if t.charges then
      if t.renews then Until(t.at + ttl)
      else if life.Until? && t.at < life.end then life else Forever
    else if !t.renews || life.Absent? || (life.Until? && t.at >= life.end) then life
    else Until(t.at + ttl)
  }

  ghost function LifeOf(ts: seq<Touch>, ttl: nat): Life {
    if ts == [] then Absent else LifeAfter(LifeOf(ts[..|ts| - 1], ttl), ts[|ts| - 1], ttl)
  }

  /** Some charge restarted the count. */
  ghost predicate Lapses(ts: seq<Touch>, ttl: nat) {
    ts != [] && (Lapses(ts[..|ts| - 1], ttl) || LapsesAt(LifeOf(ts[..|ts| - 1], ttl), ts[|ts| - 1]))
  }

  /** Times do not decrease, and a key is charged before it is renewed. */
  ghost predicate Proper(ts: seq<Touch>) {
    && (forall i, j :: 0 <= i < j < |ts| ==> ts[i].at <= ts[j].at)
    && (ts != [] ==> ts[0].charges)
  }

  /** No renewal after the `i`-th touch came in time for it. */
  ghost predicate Unrenewed(ts: seq<Touch>, ttl: nat, i: int) {
    && 0 <= i < |ts| && ts[i].renews
    && (forall j :: i < j < |ts| && ts[j].renews ==> ts[j].at >= ts[i].at + ttl)
  }

  /** A renewal, then no other within the TTL, and then the charge `j` after the TTL. */
  ghost predicate GapAt(ts: seq<Touch>, ttl: nat, i: int, j: int) {
    0 <= i < j < |ts| && Unrenewed(ts[..j], ttl, i) && ts[j].charges && ts[j].at >= ts[i].at + ttl
  }

  ghost predicate Gap(ts: seq<Touch>, ttl: nat) {
    exists i, j :: GapAt(ts, ttl, i, j)
  }

  /** What the life says about the renewals, as long as nothing has lapsed. */
  ghost predicate Reflects(ts: seq<Touch>, ttl: nat, life: Life) {
    match life
    case Absent => ts == []
    case Forever => ts != [] && forall i :: 0 <= i < |ts| ==> !ts[i].renews
    case Until(end) => exists i :: EndsBy(ts, ttl, i, end)
  }

  /** The earliest renewal that no other followed in time decides the end. */
  ghost predicate EndsBy(ts: seq<Touch>, ttl: nat, i: int, end: nat) {
    && Unrenewed(ts, ttl, i) && end == ts[i].at + ttl
    && (forall i' :: Unrenewed(ts, ttl, i') ==> i <= i')
  }

  lemma UnrenewedSnoc(ts: seq<Touch>, t: Touch, ttl: nat, i: int)
    ensures Unrenewed(ts + [t], ttl, i)
       <==> if i == |ts| then t.renews else Unrenewed(ts, ttl, i) && (t.renews ==> t.at >= ts[i].at + ttl)
  {
    var us := ts + [t];
    assert us[|ts|] == t && forall j :: 0 <= j < |ts| ==> us[j] == ts[j];
  }

  lemma GapSnoc(ts: seq<Touch>, t: Touch, ttl: nat)
    ensures Gap(ts + [t], ttl)
       <==> Gap(ts, ttl) || (t.charges && exists i :: Unrenewed(ts, ttl, i) && t.at >= ts[i].at + ttl)
  {
    var us := ts + [t];
    assert us[..|ts|] == ts && us[|ts|] == t;
    assert forall j :: 0 <= j < |ts| ==> us[..j] == ts[..j] && us[j] == ts[j];
    if Gap(us, ttl) {
      var i, j :| GapAt(us, ttl, i, j);
      if j < |ts| {
        assert GapAt(ts, ttl, i, j);
      } else {
        assert Unrenewed(ts, ttl, i);
      }
    }
    if Gap(ts, ttl) {
      var i, j :| GapAt(ts, ttl, i, j);
      assert GapAt(us, ttl, i, j);
    }
    if t.charges && exists i :: Unrenewed(ts, ttl, i) && t.at >= ts[i].at + ttl {
      var i :| Unrenewed(ts, ttl, i) && t.at >= ts[i].at + ttl;
      assert GapAt(us, ttl, i, |ts|);
    }
  }

  /** While nothing has lapsed, a charge lapses exactly when some renewal has been left alone for its TTL. */
  lemma LapseIsGap(ts: seq<Touch>, t: Touch, ttl: nat, life: Life)
    requires Proper(ts + [t]) && Reflects(ts, ttl, life)
    ensures LapsesAt(life, t) <==> t.charges && exists i :: Unrenewed(ts, ttl, i) && t.at >= ts[i].at + ttl
  {
    if life.Until? {
      var i :| EndsBy(ts, ttl, i, life.end);
      forall i' | Unrenewed(ts, ttl, i')
        ensures ts[i'].at >= ts[i].at
      {
        assert (ts + [t])[i'] == ts[i'] && (ts + [t])[i] == ts[i];
      }
    }
  }

  lemma RenewReflects(ts: seq<Touch>, t: Touch, ttl: nat)
    requires Proper(ts + [t]) && t.renews
    requires forall i :: Unrenewed(ts, ttl, i) ==> t.at < ts[i].at + ttl
    ensures Reflects(ts + [t], ttl, Until(t.at + ttl))
  {
    forall i
      ensures Unrenewed(ts + [t], ttl, i) <==> i == |ts|
    {
      UnrenewedSnoc(ts, t, ttl, i);
    }
    assert EndsBy(ts + [t], ttl, |ts|, t.at + ttl);
  }

  lemma StepReflects(ts: seq<Touch>, t: Touch, ttl: nat, life: Life)
    requires Proper(ts + [t]) && Reflects(ts, ttl, life) && !LapsesAt(life, t) && (t.charges || t.renews)
    ensures Reflects(ts + [t], ttl, LifeAfter(life, t, ttl))
  {
    var us := ts + [t];
    assert us[|ts|] == t && forall j :: 0 <= j < |ts| ==> us[j] == ts[j];
    if t.renews && (life.Until? ==> t.at < life.end) {
      InTime(ts, t, ttl, life);
      assert life.Absent? ==> t == us[0];
      RenewReflects(ts, t, ttl);
    } else if life.Until? {
      var i :| EndsBy(ts, ttl, i, life.end);
      forall i'
        ensures Unrenewed(us, ttl, i') ==> i <= i'
      {
        UnrenewedSnoc(ts, t, ttl, i');
      }
      UnrenewedSnoc(ts, t, ttl, i);
      assert EndsBy(us, ttl, i, life.end);
    }
  }

  lemma InTime(ts: seq<Touch>, t: Touch, ttl: nat, life: Life)
    requires Proper(ts + [t]) && Reflects(ts, ttl, life) && (life.Until? ==> t.at < life.end)
    ensures forall i :: Unrenewed(ts, ttl, i) ==> t.at < ts[i].at + ttl
  {
    LapseIsGap(ts, t.(charges := true), ttl, life) by {
      var us, vs := ts + [t], ts + [t.(charges := true)];
      assert forall i :: 0 <= i < |us| ==> us[i].at == vs[i].at;
      assert ts != [] ==> us[0] == vs[0];
    }
  }

  /** A count is lost exactly when a charge comes a TTL or more after a renewal that none followed in time. */
  lemma {:induction false} LapseExact(ts: seq<Touch>, ttl: nat)
    requires Proper(ts) && forall t :: t in ts ==> t.charges || t.renews
    ensures Lapses(ts, ttl) <==> Gap(ts, ttl)
    ensures !Lapses(ts, ttl) ==> Reflects(ts, ttl, LifeOf(ts, ttl))
  {
    if ts != [] {
      var front, t := ts[..|ts| - 1], ts[|ts| - 1];
      assert ts == front + [t] && forall i :: 0 <= i < |front| ==> front[i] == ts[i];
      LapseExact(front, ttl);
      GapSnoc(front, t, ttl);
      if !Lapses(front, ttl) {
        LapseIsGap(front, t, ttl, LifeOf(front, ttl));
        if !LapsesAt(LifeOf(front, ttl), t) {
          StepReflects(front, t, ttl, LifeOf(front, ttl));
        }
      }
    }
  }

  ghost predicate ApartAt(ts: seq<Touch>, ttl: nat, i: int) {
    0 <= i && i + 1 < |ts| && ts[i + 1].at >= ts[i].at + ttl
  }

  /** Where every charge renews, that is two neighbouring charges a TTL or more apart. */
  lemma GapOfCharges(ts: seq<Touch>, ttl: nat)
    requires Proper(ts) && forall t :: t in ts ==> t.charges && t.renews
    ensures Gap(ts, ttl) <==> exists i :: ApartAt(ts, ttl, i)
  {
    if Gap(ts, ttl) {
      var i, j :| GapAt(ts, ttl, i, j);
      assert ts[i + 1] in ts;
      if i + 1 < j {
        assert ts[..j][i + 1] == ts[i + 1] && ts[..j][i] == ts[i];
      }
      assert ApartAt(ts, ttl, i);
    }
    if exists i :: ApartAt(ts, ttl, i) {
      var i :| ApartAt(ts, ttl, i);
      assert ts[i] in ts && ts[i + 1] in ts;
      assert Unrenewed(ts[..i + 1], ttl, i);
      assert GapAt(ts, ttl, i, i + 1);
    }
  }

  /** Touches that all lie within less than a TTL leave no gap. */
  lemma NoGapWithin(ts: seq<Touch>, ttl: nat)
    requires forall i, j :: 0 <= i < j < |ts| ==> ts[j].at < ts[i].at + ttl
    ensures !Gap(ts, ttl)
  {
    forall i, j
      ensures !GapAt(ts, ttl, i, j)
    {
    }
  }
}
