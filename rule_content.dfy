/** Reading a rule's stored content and rewriting the facts of its
    specification (`parse_rule_content`, main.py:119-133; `process_rule`,
    main.py:174-194). JSON decoding is the parameter `decode`: `None` when
    `json.loads` raises, otherwise the decoded document. */
module RuleContent {
  import opened Wrappers
  import opened PyValues
  import opened Perspectives

  /** `s.replace("'", '"')`. */
  function Requote(s: string): (r: string)
    ensures |r| == |s| && '\'' !in r
    ensures forall i :: 0 <= i < |s| && s[i] == '\'' ==> r[i] == '"'
    ensures forall i :: 0 <= i < |s| && s[i] != '\'' ==> r[i] == s[i]
  {
    seq(|s|, i requires 0 <= i < |s| => if s[i] == '\'' then '"' else s[i])
  }

  /** `parse_rule_content`: a dict is taken as it is, a string is decoded
      (and, when that fails, decoded again with its single quotes turned into
      double quotes); `None` and every other value give `None`. */
  function ParseRuleContent(raw: Value, decode: string -> Option<Value>): (r: Option<Value>)
    ensures r.Some? ==> raw.Dict? || raw.Str?
    ensures raw.Dict? ==> r == Some(raw)
  {
    match raw
    case Dict(_) => Some(raw)
    case Str(s) => if decode(s).Some? then decode(s) else decode(Requote(s))
    case _ => None
  }

  /** Text without single quotes gains nothing from the retry. */
  lemma RequoteWithoutApostrophes(s: string)
    requires '\'' !in s
    ensures Requote(s) == s
  {
  }

  /** For text without single quotes the result is exactly the strict
      decoding; in particular undecodable text gives `None`. */
  lemma ParseWithoutApostrophes(s: string, decode: string -> Option<Value>)
    requires '\'' !in s
    ensures ParseRuleContent(Str(s), decode) == decode(s)
  {
    RequoteWithoutApostrophes(s);
  }

  /** A string is parsed as soon as the strict or the repaired decoding
      succeeds, and only then. */
  lemma ParseString(s: string, decode: string -> Option<Value>)
    ensures ParseRuleContent(Str(s), decode).Some? <==> decode(s).Some? || decode(Requote(s)).Some?
    ensures decode(s).Some? ==> ParseRuleContent(Str(s), decode) == decode(s)
    ensures decode(s).None? ==> ParseRuleContent(Str(s), decode) == decode(Requote(s))
  {
  }

  // ---------------------------------------------------------------------
  // process_rule

  /** The outcome of the loop over the facts: whether any fact changed, and
      the facts as the loop leaves them. */
  datatype FactsRun = FactsRun(updated: bool, facts: seq<Value>)

  /** `for fact in facts: if convert_fact(fact): updated = True`, for a
      per-fact conversion `convert` (always `ConvertedFact` in the model;
      the lemmas about the loop hold for any conversion). */
  function ConvertAll(convert: Value -> Result<Conversion>, facts: seq<Value>): Result<FactsRun>
    decreases |facts|
  {
    if facts == [] then Ok(FactsRun(false, []))
    else
      var prev :- ConvertAll(convert, facts[..|facts| - 1]);
      var c :- convert(facts[|facts| - 1]);
      Ok(FactsRun(prev.updated || c.changed, prev.facts + [c.fact]))
  }

  /** `specification.facts` when `specification` is a dict and `facts` a
      list. */
  function FactsOf(content: Value): Option<seq<Value>> {
    if !content.Dict? then None
    else
      var spec := Get(content.fields, "specification");
      if !spec.Dict? then None
      else
        var facts := Get(spec.fields, "facts");
        if facts.List? then Some(facts.items) else None
  }

  /** `content` with its `specification.facts` replaced. */
  function WithFacts(content: Value, facts: seq<Value>): Value
    requires FactsOf(content).Some?
  {
    var spec := content.fields["specification"];
    Dict(content.fields["specification" := Dict(spec.fields["facts" := List(facts)])])
  }

  /** `process_rule` on the stored content of one rule: the rewritten
      document when some fact changed, `None` when the rule is skipped. */
  function ProcessedRule(raw: Value, decode: string -> Option<Value>): (r: Result<Option<Value>>)
    ensures ParseRuleContent(raw, decode).None? ==> r == Ok(None)
    ensures r.Raised? ==> raw.Dict? || raw.Str?
    ensures r.Ok? && r.value.Some? ==> r.value.value.Dict? && FactsOf(r.value.value).Some?
  {
    var content := ParseRuleContent(raw, decode);
    if content.None? || !Truthy(content.value) then Ok(None)
    else if !content.value.Dict? then Raised  // `content.get` on a list, a number or a string
    else if FactsOf(content.value).None? then Ok(None)
    else
      var run :- ConvertAll(ConvertedFact, FactsOf(content.value).value);
      WithFactsShape(content.value, run.facts);
      if run.updated then Ok(Some(WithFacts(content.value, run.facts))) else Ok(None)
  }

  lemma ConvertAllSnoc(convert: Value -> Result<Conversion>, xs: seq<Value>, x: Value)
    ensures ConvertAll(convert, xs + [x])
            == match ConvertAll(convert, xs)
               case Raised => Raised
               case Ok(prev) =>
                 match convert(x)
                 case Raised => Raised
                 case Ok(c) => Ok(FactsRun(prev.updated || c.changed, prev.facts + [c.fact]))
  {
    assert (xs + [x])[..|xs|] == xs;
  }

  /** Some fact's conversion raises. */
  predicate AnyRaises(convert: Value -> Result<Conversion>, facts: seq<Value>) {
    exists i :: 0 <= i < |facts| && convert(facts[i]).Raised?
  }

  /** Every fact converts, and `out` holds the converted facts in order. */
  predicate ConvertedEach(convert: Value -> Result<Conversion>, facts: seq<Value>, out: seq<Value>) {
    && |out| == |facts|
    && forall i :: 0 <= i < |facts| ==> convert(facts[i]).Ok? && convert(facts[i]).value.fact == out[i]
  }

  /** Some fact's conversion reports a change. */
  predicate AnyChanged(convert: Value -> Result<Conversion>, facts: seq<Value>) {
    exists i :: 0 <= i < |facts| && convert(facts[i]).Ok? && convert(facts[i]).value.changed
  }

  lemma AnyRaisesSnoc(convert: Value -> Result<Conversion>, xs: seq<Value>, x: Value)
    ensures AnyRaises(convert, xs + [x]) <==> AnyRaises(convert, xs) || convert(x).Raised?
  {
    if AnyRaises(convert, xs) {
      var i :| 0 <= i < |xs| && convert(xs[i]).Raised?;
      assert (xs + [x])[i] == xs[i];
    }
    if convert(x).Raised? {
      assert (xs + [x])[|xs|] == x;
    }
    if AnyRaises(convert, xs + [x]) {
      var i :| 0 <= i < |xs| + 1 && convert((xs + [x])[i]).Raised?;
      if i < |xs| {
        assert (xs + [x])[i] == xs[i];
      }
    }
  }

  /** The loop raises exactly when some fact's conversion raises. */
  lemma {:induction false} ConvertAllRaises(convert: Value -> Result<Conversion>, facts: seq<Value>)
    ensures ConvertAll(convert, facts).Raised? <==> AnyRaises(convert, facts)
    decreases |facts|
  {
    if facts != [] {
      var n := |facts| - 1;
      assert facts == facts[..n] + [facts[n]];
      ConvertAllRaises(convert, facts[..n]);
      ConvertAllSnoc(convert, facts[..n], facts[n]);
      AnyRaisesSnoc(convert, facts[..n], facts[n]);
    }
  }

  /** Once a prefix of the facts raises, the whole loop raises. */
  lemma ConvertAllRaisesEarly(convert: Value -> Result<Conversion>, facts: seq<Value>, k: nat)
    requires k <= |facts| && ConvertAll(convert, facts[..k]).Raised?
    ensures ConvertAll(convert, facts).Raised?
  {
    ConvertAllRaises(convert, facts[..k]);
    var i :| 0 <= i < k && convert(facts[..k][i]).Raised?;
    assert facts[..k][i] == facts[i];
    ConvertAllRaises(convert, facts);
  }

  /** Otherwise every fact is converted in place, and `updated` says whether
      any of them changed. */
  lemma ConvertAllOk(convert: Value -> Result<Conversion>, facts: seq<Value>, run: FactsRun)
    requires ConvertAll(convert, facts) == Ok(run)
    ensures ConvertedEach(convert, facts, run.facts)
    ensures run.updated <==> AnyChanged(convert, facts)
  {
    ConvertAllEach(convert, facts, run);
    ConvertAllChanged(convert, facts, run);
  }

  lemma {:induction false} ConvertAllEach(convert: Value -> Result<Conversion>, facts: seq<Value>, run: FactsRun)
    requires ConvertAll(convert, facts) == Ok(run)
    ensures ConvertedEach(convert, facts, run.facts)
    decreases |facts|
  {
    if facts != [] {
      var n := |facts| - 1;
      var xs := facts[..n];
      assert facts == xs + [facts[n]];
      ConvertAllSnoc(convert, xs, facts[n]);
      var prev := ConvertAll(convert, xs).value;
      ConvertAllEach(convert, xs, prev);
      assert run.facts == prev.facts + [convert(facts[n]).value.fact];
      forall i | 0 <= i < |facts|
        ensures convert(facts[i]).Ok? && convert(facts[i]).value.fact == run.facts[i]
      {
        if i < n {
          assert facts[i] == xs[i];
          assert run.facts[i] == prev.facts[i];
        }
      }
    }
  }

  lemma AnyChangedSnoc(convert: Value -> Result<Conversion>, xs: seq<Value>, x: Value)
    ensures AnyChanged(convert, xs + [x])
            <==> AnyChanged(convert, xs) || (convert(x).Ok? && convert(x).value.changed)
  {
    if AnyChanged(convert, xs) {
      var i :| 0 <= i < |xs| && convert(xs[i]).Ok? && convert(xs[i]).value.changed;
      assert (xs + [x])[i] == xs[i];
    }
    if convert(x).Ok? && convert(x).value.changed {
      assert (xs + [x])[|xs|] == x;
    }
    if AnyChanged(convert, xs + [x]) {
      var i :| 0 <= i < |xs| + 1 && convert((xs + [x])[i]).Ok? && convert((xs + [x])[i]).value.changed;
      if i < |xs| {
        assert (xs + [x])[i] == xs[i];
      }
    }
  }

  lemma {:induction false} ConvertAllChanged(convert: Value -> Result<Conversion>, facts: seq<Value>, run: FactsRun)
    requires ConvertAll(convert, facts) == Ok(run)
    ensures run.updated <==> AnyChanged(convert, facts)
    decreases |facts|
  {
    if facts != [] {
      var n := |facts| - 1;
      var xs := facts[..n];
      assert facts == xs + [facts[n]];
      ConvertAllSnoc(convert, xs, facts[n]);
      ConvertAllChanged(convert, xs, ConvertAll(convert, xs).value);
      AnyChangedSnoc(convert, xs, facts[n]);
    }
  }

  /** A conversion that is idempotent on these facts makes the loop
      idempotent: run again over its own output it changes nothing and
      reports the same. */
  lemma {:induction false} ConvertAllIdempotent(convert: Value -> Result<Conversion>, facts: seq<Value>, run: FactsRun)
    requires ConvertAll(convert, facts) == Ok(run)
    requires forall i :: 0 <= i < |facts| && convert(facts[i]).Ok? ==>
               convert(convert(facts[i]).value.fact) == convert(facts[i])
    ensures ConvertAll(convert, run.facts) == Ok(run)
    decreases |facts|
  {
    if facts != [] {
      var n := |facts| - 1;
      var xs := facts[..n];
      assert facts == xs + [facts[n]];
      ConvertAllSnoc(convert, xs, facts[n]);
      var prev := ConvertAll(convert, xs).value;
      var c := convert(facts[n]).value;
      forall i | 0 <= i < |xs| && convert(xs[i]).Ok?
        ensures convert(convert(xs[i]).value.fact) == convert(xs[i])
      {
        assert xs[i] == facts[i];
      }
      ConvertAllIdempotent(convert, xs, prev);
      ConvertAllSnoc(convert, prev.facts, c.fact);
    }
  }

  lemma WithFactsShape(content: Value, facts: seq<Value>)
    requires FactsOf(content).Some?
    ensures FactsOf(WithFacts(content, facts)) == Some(facts)
    ensures WithFacts(content, facts).fields.Keys == content.fields.Keys
    ensures forall k :: k in content.fields && k != "specification" ==> WithFacts(content, facts).fields[k] == content.fields[k]
    ensures var spec := content.fields["specification"];
            var spec' := WithFacts(content, facts).fields["specification"];
            spec'.Dict? && spec'.fields.Keys == spec.fields.Keys
            && forall k :: k in spec.fields && k != "facts" ==> spec'.fields[k] == spec.fields[k]
  {
  }

  /** `process_rule` skips a rule exactly when its content does not parse or
      is empty, `specification` is not a dict, `facts` is not a list, or no
      fact converted; it raises exactly when the parsed content is a truthy
      non-dict or some fact's conversion raises. */
  lemma ProcessRuleOutcomes(raw: Value, decode: string -> Option<Value>)
    ensures var content := ParseRuleContent(raw, decode);
            var usable := content.Some? && Truthy(content.value);
            var facts := if usable then FactsOf(content.value) else None;
            && (ProcessedRule(raw, decode).Raised? <==>
                  usable && (!content.value.Dict? || (facts.Some? && AnyRaises(ConvertedFact, facts.value))))
            && (ProcessedRule(raw, decode) == Ok(None) <==>
                  || !usable
                  || (content.value.Dict? && facts.None?)
                  || (facts.Some? && !AnyRaises(ConvertedFact, facts.value) && !AnyChanged(ConvertedFact, facts.value)))
  {
    var content := ParseRuleContent(raw, decode);
    if content.Some? && Truthy(content.value) && FactsOf(content.value).Some? {
      var facts := FactsOf(content.value).value;
      ConvertAllRaises(ConvertedFact, facts);
      if ConvertAll(ConvertedFact, facts).Ok? {
        ConvertAllOk(ConvertedFact, facts, ConvertAll(ConvertedFact, facts).value);
      }
    }
  }

  /** A rewritten rule is its parsed content with only `specification.facts`
      replaced, each fact passed through `convert_fact`, at least one of them
      changed. */
  lemma ProcessRuleRewrite(raw: Value, decode: string -> Option<Value>, d: Value)
    requires ProcessedRule(raw, decode) == Ok(Some(d))
    ensures var content := ParseRuleContent(raw, decode);
            && content.Some? && FactsOf(content.value).Some?
            && var facts := FactsOf(content.value).value;
               && FactsOf(d).Some?
               && ConvertedEach(ConvertedFact, facts, FactsOf(d).value)
               && AnyChanged(ConvertedFact, facts)
               && d == WithFacts(content.value, FactsOf(d).value)
  {
    var content := ParseRuleContent(raw, decode).value;
    var facts := FactsOf(content).value;
    var run := ConvertAll(ConvertedFact, facts).value;
    assert run.updated && d == WithFacts(content, run.facts);
    WithFactsShape(content, run.facts);
    ConvertAllOk(ConvertedFact, facts, run);
  }

  lemma WithFactsSame(content: Value)
    requires FactsOf(content).Some?
    ensures WithFacts(content, FactsOf(content).value) == content
  {
    var spec := content.fields["specification"];
    assert spec.fields["facts" := List(FactsOf(content).value)] == spec.fields;
    assert content.fields["specification" := Dict(spec.fields)] == content.fields;
  }

  /** Running `process_rule` on a rewritten document gives the same document
      back: converting the same rule twice is harmless. */
  lemma ProcessRuleIdempotent(raw: Value, decode: string -> Option<Value>, d: Value)
    requires ProcessedRule(raw, decode) == Ok(Some(d))
    ensures ProcessedRule(d, decode) == Ok(Some(d))
  {
    var content := ParseRuleContent(raw, decode).value;
    var facts := FactsOf(content).value;
    var run := ConvertAll(ConvertedFact, facts).value;
    assert d == WithFacts(content, run.facts);
    WithFactsShape(content, run.facts);
    assert "specification" in d.fields;
    forall i | 0 <= i < |facts| && ConvertedFact(facts[i]).Ok?
      ensures ConvertedFact(ConvertedFact(facts[i]).value.fact) == ConvertedFact(facts[i])
    {
      ConvertFactIdempotent(facts[i], ConvertedFact(facts[i]).value);
    }
    ConvertAllIdempotent(ConvertedFact, facts, run);
    WithFactsSame(d);
  }

  /** The imperative `process_rule`: the loop over the facts with its
      `updated` flag. */
  method ProcessRule(raw: Value, decode: string -> Option<Value>) returns (r: Result<Option<Value>>)
    ensures r == ProcessedRule(raw, decode)
  {
    var content := ParseRuleContent(raw, decode);
    if content.None? || !Truthy(content.value) {
      return Ok(None);
    }
    if !content.value.Dict? {
      return Raised;
    }
    var spec := Get(content.value.fields, "specification");
    if !spec.Dict? {
      return Ok(None);
    }
    var factsValue := Get(spec.fields, "facts");
    if !factsValue.List? {
      return Ok(None);
    }
    var facts := factsValue.items;
    assert FactsOf(content.value) == Some(facts);
    var run :- ConvertFacts(facts);
    if run.updated {
      r := Ok(Some(WithFacts(content.value, run.facts)));
    } else {
      r := Ok(None);
    }
  }

  /** The loop of `process_rule` over the facts: each fact is converted in
      turn, the first one that raises ends the loop, and `updated` records
      whether any conversion changed its fact. */
  /** One more turn of the fact loop, for any conversion. */
  lemma ConvertAllStep(convert: Value -> Result<Conversion>, facts: seq<Value>, i: nat, run: FactsRun,
                       c: Result<Conversion>)
    requires i < |facts| && ConvertAll(convert, facts[..i]) == Ok(run) && convert(facts[i]) == c
    ensures c.Raised? ==> ConvertAll(convert, facts).Raised?
    ensures c.Ok? ==> ConvertAll(convert, facts[..i + 1]) == Ok(FactsRun(run.updated || c.value.changed, run.facts + [c.value.fact]))
  {
    assert facts[..i + 1] == facts[..i] + [facts[i]];
    ConvertAllSnoc(convert, facts[..i], facts[i]);
    if c.Raised? {
      ConvertAllRaisesEarly(convert, facts, i + 1);
    }
  }

  method ConvertFacts(facts: seq<Value>) returns (r: Result<FactsRun>)
    ensures r == ConvertAll(ConvertedFact, facts)
  {
    var updated := false;
    var out: seq<Value> := [];
    var i := 0;
    while i < |facts|
      invariant 0 <= i <= |facts|
      invariant ConvertAll(ConvertedFact, facts[..i]) == Ok(FactsRun(updated, out))
    {
      var c := ConvertFact(facts[i]);
      ConvertAllStep(ConvertedFact, facts, i, FactsRun(updated, out), c);
      if c.Raised? {
        return Raised;
      }
      updated := updated || c.value.changed;
      out := out + [c.value.fact];
      i := i + 1;
    }
    assert facts[..i] == facts;
    return Ok(FactsRun(updated, out));
  }

}
