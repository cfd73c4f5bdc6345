/** Field transformation: the hub walks the rules for a (source, target) pair
    in order and, for every rule that carries a 'fields' key, writes
    `transformed[rule['target']] = data.get(rule['source'])`. */
module Transformation {
  import opened Payloads

  /** One entry of a rule dict: absent, or present with a field name. */
  datatype Entry = Absent | Present(name: string)

  /** A transformation rule dict as the rule store hands it over: whether it
      has a 'fields' key, and its 'source' and 'target' entries. */
  datatype Rule = Rule(hasFields: bool, source: Entry, target: Entry)

  /** The `KeyError` raised when a rule with 'fields' lacks 'source' or 'target'. */
  datatype TransformError = MissingRuleKey(key: string)

  datatype Transformed = Ok(payload: Payload) | Err(error: TransformError)

  /** A rule the walk can apply without raising. */
  predicate WellFormed(rule: Rule)
  {
    rule.hasFields ==> rule.source.Present? && rule.target.Present?
  }

  /** The key whose lookup raises first: the right-hand side
      `data.get(rule['source'])` is evaluated before `rule['target']`. */
  function KeyErrorOf(rule: Rule): (r: TransformError)
    requires !WellFormed(rule)
    ensures r.key == "source" || r.key == "target"
    ensures r.key == "source" ==> rule.source.Absent?
    ensures r.key == "target" ==> rule.target.Absent?
    ensures rule.source.Absent? ==> r.key == "source"
  {
    if rule.source.Absent? then MissingRuleKey("source") else MissingRuleKey("target")
  }

  /** One iteration of the walk over `acc`, the dict built so far. */
  function Apply(acc: Payload, data: Payload, rule: Rule): (r: Transformed)
  {
    if !rule.hasFields then Ok(acc)
    else if !WellFormed(rule) then Err(KeyErrorOf(rule))
    else Ok(acc[rule.target.name := Get(data, rule.source.name)])
  }

  /** The walk as a left fold: the rules in list order, starting from `{}`,
      stopping at the first error. */
  function Transform(data: Payload, rules: seq<Rule>): (r: Transformed)
    ensures r.Err? ==> exists i :: 0 <= i < |rules| && !WellFormed(rules[i]) && r.error == KeyErrorOf(rules[i])
    ensures r.Ok? ==> forall k :: k in r.payload ==> exists i :: 0 <= i < |rules| && rules[i].hasFields
                                                             && rules[i].target == Present(k)
    decreases |rules|
  {
    if rules == [] then Ok(map[])
    else
      match Transform(data, rules[..|rules| - 1])
      case Err(e) => Err(e)
      case Ok(acc) => Apply(acc, data, rules[|rules| - 1])
  }

  /** The keys the rules write: the 'target' of every rule that has 'fields'. */
  ghost function Targets(rules: seq<Rule>): (r: set<string>)
  {
    set r | r in rules && r.hasFields && r.target.Present? :: r.target.name
  }

  /** `_transform_data`: the loop over the rules, writing one key at a time. */
  method TransformData(data: Payload, rules: seq<Rule>) returns (r: Transformed)
    ensures r == Transform(data, rules)
  {
    var transformed: Payload := map[];
    for i := 0 to |rules|
      invariant Transform(data, rules[..i]) == Ok(transformed)
    {
      var rule := rules[i];
      assert rules[..i + 1][..i] == rules[..i];
      if rule.hasFields {
        if rule.source.Absent? {
          r := Err(MissingRuleKey("source"));
          ErrorStopsWalk(data, rules, i + 1);
          return;
        }
        if rule.target.Absent? {
          r := Err(MissingRuleKey("target"));
          ErrorStopsWalk(data, rules, i + 1);
          return;
        }
        transformed := transformed[rule.target.name := Get(data, rule.source.name)];
      }
    }
    assert rules[..|rules|] == rules;
    r := Ok(transformed);
  }

  /** Once a prefix of the rules raises, the whole walk raises the same error. */
  lemma {:induction false} ErrorStopsWalk(data: Payload, rules: seq<Rule>, k: nat)
    requires k <= |rules|
    requires Transform(data, rules[..k]).Err?
    ensures Transform(data, rules) == Transform(data, rules[..k])
  {
    if k < |rules| {
      var prefix := rules[..|rules| - 1];
      assert prefix[..k] == rules[..k];
      ErrorStopsWalk(data, prefix, k);
    } else {
      assert rules[..k] == rules;
    }
  }

  /** The walk succeeds exactly when every rule with 'fields' has both a
      'source' and a 'target'. */
  lemma {:induction false} TransformSucceedsIff(data: Payload, rules: seq<Rule>)
    ensures Transform(data, rules).Ok? <==> forall i :: 0 <= i < |rules| ==> WellFormed(rules[i])
  {
    if rules != [] {
      var prefix := rules[..|rules| - 1];
      TransformSucceedsIff(data, prefix);
      assert forall i :: 0 <= i < |prefix| ==> prefix[i] == rules[i];
    }
  }

  /** A failing walk raises the `KeyError` of the first malformed rule. */
  lemma {:induction false} TransformFailsAtFirstMalformed(data: Payload, rules: seq<Rule>, i: nat)
    requires i < |rules| && !WellFormed(rules[i])
    requires forall j :: 0 <= j < i ==> WellFormed(rules[j])
    ensures Transform(data, rules) == Err(KeyErrorOf(rules[i]))
  {
    var prefix := rules[..|rules| - 1];
    if i == |rules| - 1 {
      TransformSucceedsIff(data, prefix);
    } else {
      TransformFailsAtFirstMalformed(data, prefix, i);
    }
  }

  /** The keys of a successful result are exactly the targets of the rules
      that have 'fields'; rules without 'fields' add nothing, and no rules
      give `{}`. */
  lemma {:induction false} TransformKeys(data: Payload, rules: seq<Rule>)
    requires Transform(data, rules).Ok?
    ensures Transform(data, rules).payload.Keys == Targets(rules)
  {
    if rules != [] {
      var prefix, last := rules[..|rules| - 1], rules[|rules| - 1];
      assert rules == prefix + [last];
      TransformKeys(data, prefix);
      assert forall r :: r in rules <==> r in prefix || r == last;
    }
  }

  /** Last write wins: a key holds `data.get(source)` of the last rule, in
      list order, that has 'fields' and writes that key. */
  lemma {:induction false} TransformLastWriteWins(data: Payload, rules: seq<Rule>, j: nat)
    requires Transform(data, rules).Ok?
    requires j < |rules| && rules[j].hasFields
    requires forall l :: j < l < |rules| && rules[l].hasFields ==> rules[l].target != rules[j].target
    ensures rules[j].source.Present? && rules[j].target.Present?
    ensures rules[j].target.name in Transform(data, rules).payload
    ensures Transform(data, rules).payload[rules[j].target.name] == Get(data, rules[j].source.name)
  {
    var prefix := rules[..|rules| - 1];
    if j < |rules| - 1 {
      TransformLastWriteWins(data, prefix, j);
      var last := rules[|rules| - 1];
      if last.hasFields {
        assert last.target != rules[j].target;
      }
    }
  }

  /** A rule whose source field is missing from the payload still writes its
      target, holding `None`: the key is present, not omitted. */
  lemma {:induction false} MissingSourceWritesNone(data: Payload, rules: seq<Rule>, j: nat)
    requires Transform(data, rules).Ok?
    requires j < |rules| && rules[j].hasFields && rules[j].source.Present?
    requires rules[j].source.name !in data
    requires forall l :: j < l < |rules| && rules[l].hasFields ==> rules[l].target != rules[j].target
    ensures rules[j].target.Present?
    ensures rules[j].target.name in Transform(data, rules).payload
    ensures Transform(data, rules).payload[rules[j].target.name] == None
  {
    TransformLastWriteWins(data, rules, j);
  }

  /** A rule without 'fields' contributes nothing, wherever it stands in the list. */
  lemma {:induction false} RuleWithoutFieldsIsSkipped(data: Payload, a: seq<Rule>, r: Rule, b: seq<Rule>)
    requires !r.hasFields
    ensures Transform(data, a + [r] + b) == Transform(data, a + b)
  {
    if b == [] {
      assert (a + [r] + b)[..|a|] == a;
      assert a + b == a;
    } else {
      var front, last := b[..|b| - 1], b[|b| - 1];
      RuleWithoutFieldsIsSkipped(data, a, r, front);
      assert (a + [r] + b)[..|a + [r] + b| - 1] == a + [r] + front;
      assert (a + b)[..|a + b| - 1] == a + front;
    }
  }
}
