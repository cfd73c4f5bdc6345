# Integration hub core, modelled in Dafny

This project models the routing core of the ACDEH integration hub
(`IntegrationHub` in `acdeh/integration_hub.py`). The hub keeps an in-memory
table `modules` from module id to a record `{config, status, metrics}`. It
registers modules after an external schema check. It integrates a payload
from a source module to a target module in four steps:

1. it asks the rule store whether the pair may integrate;
2. it rewrites the payload field by field according to the pair's rules;
3. it delivers the result, either by calling the target's API or by
   publishing to the broker topic `"<target>_data"`;
4. it counts a success or a failure against the source module.

Files:

- `payloads.dfy` (module `Payloads`): Python values (`None`, booleans,
  integers, strings, lists, dicts), payload dicts, `dict.get` and Python
  truthiness.
- `transformation.dfy` (module `Transformation`): `_transform_data`. The pure
  fold `Transform` specifies it; the looping method `TransformData` is proved
  equal to it; lemmas state what the fold computes.
- `hub.dfy` (module `Hub`): the class `IntegrationHub`. It has the `modules`
  table, a ghost log `published` of broker sends and a ghost log `notices` of
  dashboard notifications. `RegisterModule` and `Integrate` update them in
  place. The pure `RecordOutcome` is the counter increment at lines 59 and 63.

External collaborators are parameters of the methods:

- `validate_schema` is the boolean `schemaValid`;
- `has_integrity_rule` is the boolean `allowed`;
- `get_transformation_rules` is the rule list `rules`;
- the HTTP call in `_call_module_api` is the answer `api`, either `Reply(body)`
  or `CallFailed(detail)`;
- a broker send is an append to `published`;
- a dashboard update is an append to `notices`.

Behaviour of the code that is easy to misread, all of it kept by the model:

- A refused permission check is counted as a failure of the source module.
  The check raises inside the `try`, and the handler increments `failure`.
- A rule whose source field is missing from the payload still writes its
  target key, holding `None`. The key is not omitted.
- The endpoint test reads `.get('endpoint')` on the record, not on its
  `config`. Registration writes no such key, so a target registered through
  the hub is always reached by a publish. The record type has an `extra` map
  for keys that other code might store on a record, and the API path is
  modelled for those.
- The API path returns the reply before the success increment, so a
  successful call changes no counter.
- Transformation runs before the target lookup. A malformed rule therefore
  wins over an unregistered target.
- `requests` is never imported in `acdeh/integration_hub.py`. The API call as
  written therefore always raises; that is the `CallFailed` answer.

## Model

| member | source | states |
|---|---|---|
| `Transformation.Transform` | acdeh/integration_hub.py:72-77 | the walk over the rules as a left fold from `{}`: an error is the `KeyError` of some rule that has 'fields' but lacks 'source' or 'target', and every key of a result is the 'target' of some rule with 'fields' |
| `Transformation.KeyErrorOf` | acdeh/integration_hub.py:75 | the `KeyError` names a key the rule lacks, and a missing 'source' is reported before a missing 'target' because the right-hand side is evaluated first |
| `Transformation.TransformData` | acdeh/integration_hub.py:66-80 | the loop over the rules returns exactly what the left fold `Transform` gives, including the first `KeyError` of a malformed rule |
| `Transformation.ErrorStopsWalk` | acdeh/integration_hub.py:73-80 | once a rule raises, the walk raises that error and later rules have no effect |
| `Transformation.TransformSucceedsIff` | acdeh/integration_hub.py:73-75 | the transformation succeeds exactly when every rule with 'fields' has both 'source' and 'target' |
| `Transformation.TransformFailsAtFirstMalformed` | acdeh/integration_hub.py:74-75 | a failing transformation raises the `KeyError` of the first malformed rule; 'source' is reported before 'target' because the right-hand side is evaluated first |
| `Transformation.TransformKeys` | acdeh/integration_hub.py:72-77 | the result's keys are exactly the 'target' values of the rules that have 'fields'; other payload fields are dropped and an empty rule list gives `{}` |
| `Transformation.TransformLastWriteWins` | acdeh/integration_hub.py:73-75 | each key holds `data.get(source)` of the last rule in list order that writes it, so later rules overwrite earlier ones |
| `Transformation.MissingSourceWritesNone` | acdeh/integration_hub.py:75 | a source field absent from the payload yields a present target key holding `None` |
| `Transformation.RuleWithoutFieldsIsSkipped` | acdeh/integration_hub.py:74 | a rule without 'fields', anywhere in the list, leaves the result unchanged |
| `Hub.NewRecord` | acdeh/integration_hub.py:27-31 | the inserted record holds the given config, status 'active' and both counters at zero, and has no endpoint |
| `Hub.EndpointOf` | acdeh/integration_hub.py:52 | the endpoint test reads the record, not its config; a record carrying only the keys registration writes has no endpoint, so it yields `None` |
| `Hub.RegisteredNotice` | acdeh/integration_hub.py:35 | the dashboard message is "Module ", the module id, then " registered.", and the id can be read back from it |
| `Hub.RecordOutcome` | acdeh/integration_hub.py:59-63 | one counter of one module goes up by exactly one; the other counter, the module's config, status and other keys, and every other module are unchanged |
| `Hub.IntegrationHub.constructor` | acdeh/integration_hub.py:12-16 | the hub starts with an empty module table and nothing sent |
| `Hub.IntegrationHub.RegisterModule` | acdeh/integration_hub.py:18-39 | a duplicate id raises and leaves the table as it was, before the validator is consulted; a rejected schema raises and inserts nothing; otherwise exactly one key is added, holding the given config, status 'active' and zero counters, every other entry is unchanged, and one dashboard notice is sent |
| `Hub.IntegrationHub.Integrate` | acdeh/integration_hub.py:41-64 | a refused permission, a malformed rule, an unregistered target or a failed API call raises and adds exactly one to the source's `failure`; with no endpoint on the target's record, one message goes to topic `"<target>_data"` with the transformed payload, the source's `success` goes up by one and `None` is returned; an API reply is returned with no counter changed; only the source's counters ever change; a target built by registration alone is always published to |

## Left out

- The rule store (`acdeh/knowledge_base.py`) is not part of this model. It is
  Neo4j driver setup and queries. Its answers are method parameters, and an
  exception raised by the store counts the same as a refusal.
- The HTTP request in `_call_module_api` (URL, bearer header, JSON body,
  status code) is not modelled. Only its outcome is, as the `api` parameter.
- Broker semantics are not modelled: no delivery guarantee, and no send that
  fails synchronously. A send is an append to the ghost log `published`.
- The FastAPI route registration in `_update_dashboard` and all `logging`
  calls are left out, apart from the notice text appended to `notices`.
- Concurrency is left out. The source mutates a plain dict sequentially with
  no locking, and the model is sequential.
- Integrate: requires `source` to be registered. With an unregistered source
  the source's own handler raises a second `KeyError` while counting the
  failure; the model does not cover that crash.
- Rule entries are strings. A non-string or unhashable 'target' value, and
  payload keys that are not strings, are not modelled.
- Floating-point payload values are not modelled.
- Python dicts are shared by reference. The model stores `config` and
  payloads as values, so a caller mutating a config after registration is
  not captured.
