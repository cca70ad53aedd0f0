/** End-to-end runs on concrete namespaces: a flash-sale event whose two
    services scale up and come back down, the same event when one autoscaler
    is missing, and a catalog that names a service twice. */
module Scenarios {
  import opened Wrappers
  import opened Cluster
  import opened OrderedDict
  import opened EventConfig
  import opened ApplyPhase
  import opened RevertPhase
  import opened ScalePilot

  const Config := RunConfig(Some("flash_sale"), Some("https://hooks.slack.invalid/T0"), DefaultNamespace, 1)
  const FlashSale := [Target("checkout", Some(10)), Target("catalog", Some(5))]
  const Events: Catalog := map["flash_sale" := FlashSale]
  const Untouched := RunFaults(NoFaults, NoFaults)
  const BothAtTwo: Cluster := map["checkout" := Hpa(2, map[]), "catalog" := Hpa(2, map[])]

  /** The flash-sale configuration passes the gate with its two targets. */
  lemma FlashSaleGate()
    ensures CheckEventConfig(Config, Events) == Success(FlashSale)
    ensures DistinctNames(FlashSale)
  {
    assert FlashSale[0].name == "checkout" && FlashSale[1].name == "catalog";
  }

  /** Both services start at 2; the apply phase takes `checkout` to 10 and
      `catalog` to 5, and the revert phase brings both back to 2. */
  lemma FlashSaleRoundTrip()
    ensures Apply(FlashSale, BothAtTwo, NoFaults).cluster["checkout"].minReplicas == 10
    ensures Apply(FlashSale, BothAtTwo, NoFaults).cluster["catalog"].minReplicas == 5
    ensures Run(Config, Events, BothAtTwo, Untouched, NoDrift).Completed?
    ensures Run(Config, Events, BothAtTwo, Untouched, NoDrift).cluster == BothAtTwo
    ensures ExitCode(Run(Config, Events, BothAtTwo, Untouched, NoDrift)) == 0
  {
    FlashSaleGate();
    assert AllSucceed(FlashSale, 0, |FlashSale|, BothAtTwo.Keys, NoFaults);
    ApplyFromFinalCluster(FlashSale, NoFaults, 0, BothAtTwo, Empty);
    assert FlashSale[0].name == "checkout" && FlashSale[1].name == "catalog";
    RoundTrip(Config, Events, BothAtTwo, Untouched);
  }

  /** The flash-sale event with `SLEEP_TIME=10000000000`: the apply phase
      completes, the sleep overflows, and both services stay at their new
      minimums with a non-zero exit code. */
  lemma FlashSaleOversizedSleep()
    ensures var r := Run(Config.(sleepTime := 10_000_000_000), Events, BothAtTwo, Untouched, NoDrift);
      && r.HoldCrash?
      && r.cluster["checkout"].minReplicas == 10
      && r.cluster["catalog"].minReplicas == 5
      && ExitCode(r) == 1
  {
    FlashSaleGate();
    assert AllSucceed(FlashSale, 0, |FlashSale|, BothAtTwo.Keys, NoFaults);
    ApplyFromFinalCluster(FlashSale, NoFaults, 0, BothAtTwo, Empty);
    assert FlashSale[0].name == "checkout" && FlashSale[1].name == "catalog";
  }

  const CheckoutOnly: Cluster := map["checkout" := Hpa(2, map[])]

  /** When `catalog` has no autoscaler, `checkout` is scaled to 10 and
      recorded, the run stops at `catalog` with a 404, and `checkout` stays
      at 10 because no revert runs. */
  lemma FlashSaleMissingService()
    ensures var r := Run(Config, Events, CheckoutOnly, Untouched, NoDrift);
      && r.ApplyAbort?
      && r.halt == Halt(1, ReadFailed(NotFound))
      && r.originals == [("checkout", 2)]
      && r.cluster["checkout"].minReplicas == 10
      && ExitCode(r) != 0
  {
    FlashSaleGate();
    var s0 := UpdateHpa(FlashSale[0], 0, CheckoutOnly, Empty, NoFaults);
    assert s0.cluster == map["checkout" := Hpa(10, map[])];
    assert s0.originals == [("checkout", 2)];
    var s1 := UpdateHpa(FlashSale[1], 1, s0.cluster, s0.originals, NoFaults);
    assert s1.abort == Some(ReadFailed(NotFound));
  }

  const DuplicateCheckout := [Target("checkout", Some(10)), Target("checkout", Some(5))]
  const DuplicateEvents: Catalog := map["flash_sale" := DuplicateCheckout]

  /** The duplicate catalog passes the gate with both targets. */
  lemma DuplicateGate()
    ensures CheckEventConfig(Config, DuplicateEvents) == Success(DuplicateCheckout)
  {
  }

  /** A service named twice: the second read sees the first target, 10, and
      overwrites the recorded original with it, so the revert restores 10 and
      not the 2 the service started at. */
  lemma DuplicateNameRestoresFirstTarget()
    ensures var r := Run(Config, DuplicateEvents, CheckoutOnly, Untouched, NoDrift);
      && r.Completed?
      && r.originals == [("checkout", 10)]
      && r.cluster["checkout"].minReplicas == 10
      && r.cluster != CheckoutOnly
  {
    DuplicateGate();
    DuplicateNameRecordsFirstTarget("checkout", 10, 5, CheckoutOnly);
    var a := Apply(DuplicateCheckout, CheckoutOnly, NoFaults);
    assert Hold(a.cluster, NoDrift) == a.cluster;
  }
}
