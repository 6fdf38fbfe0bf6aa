/** Times on the wire: the bridge counts integer microseconds, the controller seconds; the controller truncates the
    wake time it sends back, and the product it truncates is a float that may round across a whole number. */
module Wire {
  import opened Controller

  function Scaled(x: real): real {
    x * 1000000.0
  }

  /** Microseconds since the bridge's epoch, in seconds. */
  function Seconds(t: int, epoch: int): real {
    (t - epoch) as real / 1000000.0
  }

  /** x in microseconds, truncated towards zero. */
  function Micros(x: real): int {
    if Scaled(x) >= 0.0 then Scaled(x).Floor else -((-Scaled(x)).Floor)
  }

  /** x is a whole number of microseconds. */
  predicate Whole(x: real) {
    Scaled(x).Floor as real == Scaled(x)
  }

  /** What rounding the product does to its truncation: a fraction may reach the next whole number, and a product may
      fall below the whole number it should reach. */
  datatype Rounding = Kept | Gained | Lost

  /** What the bridge reads for wake time x. */
  function Sent(x: real, rounding: Rounding): int {
    match rounding
    case Kept => Micros(x)
    case Gained => if x >= 0.0 && !Whole(x) then Micros(x) + 1 else Micros(x)
    case Lost => Micros(x) - 1
  }

  lemma SecondsWhole(t: int, epoch: int)
    ensures Scaled(Seconds(t, epoch)) == (t - epoch) as real
    ensures Whole(Seconds(t, epoch))
  {
  }

  lemma SecondsOrder(t: int, u: int, epoch: int)
    ensures Seconds(t, epoch) <= Seconds(u, epoch) <==> t <= u
  {
    SecondsWhole(t, epoch);
    SecondsWhole(u, epoch);
  }

  lemma IntegerWhole(n: int, x: real)
    requires Scaled(x) == n as real
    ensures Whole(x) && Micros(x) == n
  {
  }

  lemma ScaledAdds(x: real, y: real)
    ensures Scaled(x + y) == Scaled(x) + Scaled(y)
  {
  }

  lemma ScaledTimes(k: int, x: real)
    ensures Scaled(k as real * x) == k as real * Scaled(x)
  {
  }

  lemma WholeAdds(x: real, y: real)
    requires Whole(x) && Whole(y)
    ensures Whole(x + y)
  {
    ScaledAdds(x, y);
    IntegerWhole(Scaled(x).Floor + Scaled(y).Floor, x + y);
  }

  lemma WholeTimes(k: int, x: real)
    requires Whole(x)
    ensures Whole(k as real * x)
  {
    ScaledTimes(k, x);
    IntegerWhole(k * Scaled(x).Floor, k as real * x);
  }

  /** With a tick of whole microseconds and exact sums, every grid point is a whole number of microseconds. */
  lemma GridWhole(cfg: Config, from: real, k: int)
    requires Whole(from) && Whole(cfg.tick) && ExactSums(cfg)
    ensures Whole(GridPoint(cfg, from, k))
  {
    hide Whole;
    var delay := k as real * cfg.tick;
    WholeTimes(k, cfg.tick);
    WholeAdds(from, delay);
    assert cfg.sumError(from, k) == 0.0;
    assert GridPoint(cfg, from, k) == from + delay;
  }

  /** Sending whole microseconds loses nothing: later stays later. */
  lemma WholeSurvives(w: real, t: int, epoch: int)
    requires Whole(w)
    ensures Micros(w) + epoch > t <==> w > Seconds(t, epoch)
  {
    SecondsWhole(t, epoch);
    IntegerWhole(Scaled(w).Floor, w);
    ScaledOrder(w, Seconds(t, epoch));
  }

  /** A future wake time of whole microseconds passes the past-wake check, unless it is the very next microsecond and
      that one is lost. */
  lemma SentPassesExactly(w: real, rounding: Rounding, t: int, epoch: int)
    requires Whole(w) && w > Seconds(t, epoch)
    ensures Sent(w, rounding) + epoch > t <==> !(rounding.Lost? && Micros(w) + epoch == t + 1)
  {
    hide Whole, Micros, Seconds;
    WholeSurvives(w, t, epoch);
  }

  /** Before the wake time the bridge reads, the real wake time has not come either. */
  lemma BeforeSent(w: real, rounding: Rounding, now: int, epoch: int)
    requires now < Sent(w, rounding) + epoch
    ensures w > Seconds(now, epoch)
  {
    hide Scaled;
    SecondsWhole(now, epoch);
    ScaledOrder(w, Seconds(now, epoch));
    ScaledSign(w);
  }

  lemma ScaledSign(x: real)
    ensures x >= 0.0 <==> Scaled(x) >= 0.0
  {
  }

  lemma ScaledOrder(x: real, y: real)
    ensures Scaled(x) > Scaled(y) <==> x > y
  {
  }

  /** Every future grid point is still in the future after truncation. */
  ghost predicate GridSurvives(cfg: Config, epoch: int) {
    forall a: int, k: int, t: int ::
      k >= 1 && GridPoint(cfg, Seconds(a, epoch), k) > Seconds(t, epoch) ==>
        Micros(GridPoint(cfg, Seconds(a, epoch), k)) + epoch > t
  }

  /** With exact sums, truncating the wake time is harmless exactly when the tick is a whole number of microseconds. */
  lemma TruncationHarmlessExactly(cfg: Config, epoch: int)
    requires cfg.tick > 0.0 && ExactSums(cfg)
    ensures GridSurvives(cfg, epoch) <==> Whole(cfg.tick)
  {
    hide GridPoint, Whole, Micros, Seconds, Scaled, ExactSums;
    if Whole(cfg.tick) {
      forall a: int, k: int, t: int | k >= 1 && GridPoint(cfg, Seconds(a, epoch), k) > Seconds(t, epoch)
        ensures Micros(GridPoint(cfg, Seconds(a, epoch), k)) + epoch > t
      {
        SecondsWhole(a, epoch);
        GridWhole(cfg, Seconds(a, epoch), k);
        WholeSurvives(GridPoint(cfg, Seconds(a, epoch), k), t, epoch);
      }
    } else {
      var t := FractionLost(cfg, epoch);
      assert GridPoint(cfg, Seconds(epoch, epoch), 1) > Seconds(t, epoch);
    }
  }

  lemma FractionLost(cfg: Config, epoch: int) returns (t: int)
    requires cfg.tick > 0.0 && ExactSums(cfg) && !Whole(cfg.tick)
    ensures GridPoint(cfg, Seconds(epoch, epoch), 1) == cfg.tick
    ensures cfg.tick > Seconds(t, epoch) && Micros(cfg.tick) + epoch == t
  {
    t := epoch + Micros(cfg.tick);
    assert cfg.sumError(Seconds(epoch, epoch), 1) == 0.0;
    SecondsWhole(t, epoch);
    ScaledOrder(cfg.tick, Seconds(t, epoch));
  }
}
