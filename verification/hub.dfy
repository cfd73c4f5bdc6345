/** The integration hub: an in-memory table of registered modules, module
    registration, and the integration path that checks permission,
    transforms the payload, delivers it and counts the outcome against the
    source module. */
module Hub {
  import opened Payloads
  import opened Transformation

  /** The status every registration writes. */
  const ActiveStatus: string := "active"

  /** The per-module counters `metrics['success']` and `metrics['failure']`. */
  datatype Metrics = Metrics(success: nat, failure: nat)

  /** A record of the `modules` table. Registration builds the dict
      `{config, status, metrics}`; `extra` holds any further keys that code
      outside the hub stored on the record, and registration stores none. */
  datatype ModuleRecord = ModuleRecord(config: Payload, status: string, metrics: Metrics, extra: Payload)

  type Table = map<string, ModuleRecord>

  /** The record a successful registration inserts. */
  function NewRecord(config: Payload): (r: ModuleRecord)
    ensures r.config == config && r.status == ActiveStatus
    ensures r.metrics.success == 0 && r.metrics.failure == 0
    ensures !Truthy(EndpointOf(r))
  {
    ModuleRecord(config, ActiveStatus, Metrics(0, 0), map[])
  }

  /** `record.get('endpoint')`: the lookup is on the record, not on its
      config, and 'endpoint' is none of the keys registration writes. */
  function EndpointOf(rec: ModuleRecord): (r: Value)
    ensures rec.extra == map[] ==> r == None
    ensures Truthy(r) ==> "endpoint" in rec.extra
  {
    Get(rec.extra, "endpoint")
  }

  /** The exceptions the hub raises or lets through. */
  datatype HubError =
    | DuplicateModule(id: string)
    | SchemaRejected(id: string)
    | NoIntegrationRule(source: string, target: string)
    | TransformFailed(cause: TransformError)
    | UnknownModule(id: string)
    | ApiFailed(detail: string)

  /** A Python call either returns a value (`None` for a bare return) or raises. */
  datatype Outcome = Returned(value: Value) | Raised(error: HubError)

  /** What the call to the target module's API answers: the decoded body of a
      200 response, or a failure (a non-200 status or an exception). */
  datatype ApiReply = Reply(body: Value) | CallFailed(detail: string)

  /** One send to the message broker. */
  datatype Message = Message(topic: string, payload: Payload)

  /** The notification sent to the dashboard after a registration. */
  function RegisteredNotice(id: string): (r: string)
    ensures |r| == |id| + 19
    ensures r[..7] == "Module " && r[|r| - 12..] == " registered."
    ensures r[7..|r| - 12] == id
  {
    "Module " + id + " registered."
  }

  /** `modules[id]['metrics'][...] += 1`: one counter of one module goes up
      by one and nothing else in the table changes. */
  function RecordOutcome(t: Table, id: string, succeeded: bool): (r: Table)
    requires id in t
    ensures r.Keys == t.Keys
    ensures forall k :: k in t && k != id ==> r[k] == t[k]
    ensures r[id].config == t[id].config && r[id].status == t[id].status && r[id].extra == t[id].extra
    ensures r[id].metrics.success == t[id].metrics.success + (if succeeded then 1 else 0)
    ensures r[id].metrics.failure == t[id].metrics.failure + (if succeeded then 0 else 1)
  {
    var m := t[id].metrics;
    t[id := t[id].(metrics := if succeeded then m.(success := m.success + 1) else m.(failure := m.failure + 1))]
  }

  class IntegrationHub {
    /** The module table, keyed by module id. */
    var modules: Table
    /** Every message sent to the broker, oldest first. */
    ghost var published: seq<Message>
    /** Every notification sent to the dashboard, oldest first. */
    ghost var notices: seq<string>

    /** Every record in the table is one that registration built, with its
        counters possibly advanced since. */
    ghost predicate OnlyRegisteredRecords()
      reads this
    {
      forall id :: id in modules ==> modules[id].status == ActiveStatus && modules[id].extra == map[]
    }

    constructor ()
      ensures modules == map[] && published == [] && notices == []
      ensures OnlyRegisteredRecords()
    {
      modules := map[];
      published := [];
      notices := [];
    }

    /** `register_module`. `schemaValid` is the answer of the external schema
        validator for (moduleId, config); it is consulted only for a new id. */
    method RegisterModule(moduleId: string, config: Payload, schemaValid: bool) returns (out: Outcome)
      modifies this
      ensures published == old(published)
      ensures moduleId in old(modules) ==>
        out == Raised(DuplicateModule(moduleId)) && modules == old(modules) && notices == old(notices)
      ensures moduleId !in old(modules) && !schemaValid ==>
        out == Raised(SchemaRejected(moduleId)) && modules == old(modules) && notices == old(notices)
      ensures moduleId !in old(modules) && schemaValid ==>
        && out == Returned(None)
        && modules.Keys == old(modules).Keys + {moduleId}
        && modules[moduleId] == ModuleRecord(config, ActiveStatus, Metrics(0, 0), map[])
        && (forall id :: id in old(modules) ==> modules[id] == old(modules)[id])
        && notices == old(notices) + [RegisteredNotice(moduleId)]
      ensures old(OnlyRegisteredRecords()) ==> OnlyRegisteredRecords()
    {
      if moduleId in modules {
        return Raised(DuplicateModule(moduleId));
      }
      if !schemaValid {
        return Raised(SchemaRejected(moduleId));
      }
      modules := modules[moduleId := NewRecord(config)];
      notices := notices + [RegisteredNotice(moduleId)];
      out := Returned(None);
    }

    /** `integrate`. `allowed` is the rule store's permission answer for
        (source, target), `rules` its transformation rules for the pair, and
        `api` what the target's API would answer if it is called. */
    method Integrate(source: string, target: string, data: Payload, allowed: bool, rules: seq<Rule>, api: ApiReply)
      returns (out: Outcome)
      requires source in modules
      modifies this
      // Only the source's counters ever change.
      ensures modules.Keys == old(modules).Keys
      ensures forall id :: id in modules && id != source ==> modules[id] == old(modules)[id]
      ensures modules[source].config == old(modules)[source].config
      ensures modules[source].status == old(modules)[source].status
      ensures modules[source].extra == old(modules)[source].extra
      ensures notices == old(notices)
      ensures old(OnlyRegisteredRecords()) ==> OnlyRegisteredRecords()
      // The permission check fails: raised, and counted as a failure.
      ensures !allowed ==>
        && out == Raised(NoIntegrationRule(source, target))
        && modules == RecordOutcome(old(modules), source, false)
        && published == old(published)
      // A malformed rule: the KeyError propagates, counted as a failure.
      ensures allowed && Transform(data, rules).Err? ==>
        && out == Raised(TransformFailed(Transform(data, rules).error))
        && modules == RecordOutcome(old(modules), source, false)
        && published == old(published)
      // An unregistered target: the KeyError on the table, counted as a failure.
      ensures allowed && Transform(data, rules).Ok? && target !in old(modules) ==>
        && out == Raised(UnknownModule(target))
        && modules == RecordOutcome(old(modules), source, false)
        && published == old(published)
      // No endpoint on the target's record: one publish, counted as a success.
      ensures allowed && Transform(data, rules).Ok? && target in old(modules)
              && !Truthy(EndpointOf(old(modules)[target])) ==>
        && out == Returned(None)
        && published == old(published) + [Message(target + "_data", Transform(data, rules).payload)]
        && modules == RecordOutcome(old(modules), source, true)
      // An endpoint on the target's record: the API's reply is returned with
      // no success counted; a failed call is counted as a failure.
      ensures allowed && Transform(data, rules).Ok? && target in old(modules)
              && Truthy(EndpointOf(old(modules)[target])) ==>
        && published == old(published)
        && match api
           case Reply(body) => out == Returned(body) && modules == old(modules)
           case CallFailed(detail) =>
             out == Raised(ApiFailed(detail)) && modules == RecordOutcome(old(modules), source, false)
      // Targets built by registration alone are always reached by a publish.
      ensures old(OnlyRegisteredRecords()) && allowed && Transform(data, rules).Ok? && target in old(modules) ==>
        out == Returned(None) && |published| == |old(published)| + 1
    {
      if !allowed {
        out := Raised(NoIntegrationRule(source, target));
      } else {
        var transformed := TransformData(data, rules);
        if transformed.Err? {
          out := Raised(TransformFailed(transformed.error));
        } else if target !in modules {
          out := Raised(UnknownModule(target));
        } else if Truthy(EndpointOf(modules[target])) {
          match api
          case Reply(body) =>
            return Returned(body);
          case CallFailed(detail) =>
            out := Raised(ApiFailed(detail));
        } else {
          published := published + [Message(target + "_data", transformed.payload)];
          modules := RecordOutcome(modules, source, true);
          return Returned(None);
        }
      }
      modules := RecordOutcome(modules, source, false);
    }
  }
}
