/** The run's inputs and the validity gate `check_event_config`: the process
    configuration, the parsed event catalog, and the check that refuses to
    start unless everything the run needs is present. */
module EventConfig {
  import opened Wrappers

  /** One catalog entry `{name, minCount}`; a missing `minCount` is `None`. */
  datatype Target = Target(name: string, minCount: Option<int>)

  /** The parsed catalog file: event name to its ordered list of targets. */
  type Catalog = map<string, seq<Target>>

  /** The process configuration, after the environment has been read:
      `EVENT_NAME` and `SLACK_WEBHOOK_URL` may be unset, `NAMESPACE` and
      `SLEEP_TIME` have defaults. */
  datatype RunConfig = RunConfig(
    eventName: Option<string>,
    webhookUrl: Option<string>,
    namespace: string,
    sleepTime: int)

  const DefaultNamespace := "nanovest"
  const DefaultSleepTime := 900

  /** The configuration `__init__` builds from the environment: an unset
      `NAMESPACE` or `SLEEP_TIME` falls back to its default, a set one is
      taken as it is, even when empty or negative. The variables are given
      already read, `SLEEP_TIME` already converted by `int`. */
  function Configure(eventName: Option<string>, webhookUrl: Option<string>, namespace: Option<string>, sleepTime: Option<int>): (cfg: RunConfig)
    ensures cfg.eventName == eventName && cfg.webhookUrl == webhookUrl
    ensures namespace.None? ==> cfg.namespace == DefaultNamespace
    ensures namespace.Some? ==> cfg.namespace == namespace.value
    ensures sleepTime.None? ==> cfg.sleepTime == DefaultSleepTime
    ensures sleepTime.Some? ==> cfg.sleepTime == sleepTime.value
  {
    RunConfig(eventName, webhookUrl,
      if namespace.Some? then namespace.value else DefaultNamespace,
      if sleepTime.Some? then sleepTime.value else DefaultSleepTime)
  }

  /** The four reasons the gate refuses, one per error it logs. */
  datatype ConfigDefect = WebhookUrlUnset | EventNameUnset | CatalogEmpty | NoServicesForEvent

  /** Python truthiness of an optional string: `None` and `""` are false. */
  predicate Truthy(s: Option<string>) {
    s.Some? && s.value != ""
  }

  /** `event_config.get(event_name)`: the event's list when the catalog has
      the event, `None` when it does not or the name is unset. */
  function Services(cfg: RunConfig, catalog: Catalog): (r: Option<seq<Target>>)
    ensures r.Some? <==> cfg.eventName.Some? && cfg.eventName.value in catalog
    ensures r.Some? ==> r.value == catalog[cfg.eventName.value]
  {
    if cfg.eventName.Some? && cfg.eventName.value in catalog
    then Some(catalog[cfg.eventName.value])
    else None
  }

  /** Python truthiness of the looked-up service list. */
  predicate HasServices(services: Option<seq<Target>>) {
    services.Some? && |services.value| > 0
  }

  /** A target the apply step accepts: `minCount` present and at least 1. */
  predicate ValidMinCount(t: Target) {
    t.minCount.Some? && t.minCount.value >= 1
  }

  function Names(ts: seq<Target>): (ns: seq<string>)
    ensures |ns| == |ts|
    ensures forall i :: 0 <= i < |ts| ==> ns[i] == ts[i].name
  {
    seq(|ts|, i requires 0 <= i < |ts| => ts[i].name)
  }

  ghost predicate DistinctNames(ts: seq<Target>) {
    forall i, j :: 0 <= i < j < |ts| ==> ts[i].name != ts[j].name
  }

  /** Whether one of the gate's conditions holds of this configuration. */
  predicate Holds(d: ConfigDefect, cfg: RunConfig, catalog: Catalog) {
    match d
    case WebhookUrlUnset => !Truthy(cfg.webhookUrl)
    case EventNameUnset => !Truthy(cfg.eventName)
    case CatalogEmpty => |catalog| == 0
    case NoServicesForEvent => !HasServices(Services(cfg, catalog))
  }

  const AllDefects: set<ConfigDefect> := {WebhookUrlUnset, EventNameUnset, CatalogEmpty, NoServicesForEvent}

  /** `check_event_config`: the service list of the configured event, or the
      set of every defect that stops the run before it touches the cluster. */
  function CheckEventConfig(cfg: RunConfig, catalog: Catalog): (r: Result<seq<Target>, set<ConfigDefect>>)
    ensures r.Failure? <==>
      !Truthy(cfg.webhookUrl) || !Truthy(cfg.eventName) || |catalog| == 0 || !HasServices(Services(cfg, catalog))
    ensures r.Failure? ==> r.error != {}
    ensures r.Failure? ==>
      && (WebhookUrlUnset in r.error <==> !Truthy(cfg.webhookUrl))
      && (EventNameUnset in r.error <==> !Truthy(cfg.eventName))
      && (CatalogEmpty in r.error <==> |catalog| == 0)
      && (NoServicesForEvent in r.error <==> !HasServices(Services(cfg, catalog)))
    ensures r.Success? ==>
      && cfg.eventName.Some? && cfg.eventName.value in catalog
      && r.value == catalog[cfg.eventName.value] && |r.value| > 0
  {
    var services := Services(cfg, catalog);
    if !Truthy(cfg.webhookUrl) || !Truthy(cfg.eventName) || |catalog| == 0 || !HasServices(services) then
      var defects := set d | d in AllDefects && Holds(d, cfg, catalog);
      assert !Truthy(cfg.webhookUrl) ==> WebhookUrlUnset in defects;
      assert !Truthy(cfg.eventName) ==> EventNameUnset in defects;
      assert |catalog| == 0 ==> CatalogEmpty in defects;
      assert !HasServices(services) ==> NoServicesForEvent in defects;
      Failure(defects)
    else
      Success(services.value)
  }
}
