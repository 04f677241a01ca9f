/** Staging: the fetch loop that collects the rules `process_rule` rewrote,
    and `save_env_output`, which keys them by id (a later entry replacing an
    earlier one), sorts them by id and writes the env document that the
    apply step reads back. */
module Staging {
  import opened Wrappers
  import opened PyValues
  import RuleContent

  /** One staged rule: `{"id": ..., "org_id": ..., "content": ...}`. */
  datatype StagedRule = StagedRule(id: int, orgId: int, content: Value)

  /** A candidate row as `load_rules` returns it. */
  datatype CandidateRow = CandidateRow(id: int, orgId: int, content: Value)

  /** The ids occurring in a list of staged rules. */
  function Ids(xs: seq<StagedRule>): set<int> {
    set x | x in xs :: x.id
  }

  /** No id occurs twice. */
  predicate UniqueIds(xs: seq<StagedRule>) {
    forall i, j :: 0 <= i < j < |xs| ==> xs[i].id != xs[j].id
  }

  /** Ids strictly ascending. */
  predicate StrictlyAscending(xs: seq<StagedRule>) {
    forall i, j :: 0 <= i < j < |xs| ==> xs[i].id < xs[j].id
  }

  /** Ids ascending, repetitions allowed. */
  predicate AscendingById(xs: seq<StagedRule>) {
    forall i, j :: 0 <= i < j < |xs| ==> xs[i].id <= xs[j].id
  }

  // ---------------------------------------------------------------------
  // The dict keyed by id
  // ---------------------------------------------------------------------

  /** `rules[e.id] = e` on a Python dict, kept as its values in insertion
      order: an entry with the same id is replaced where it stands,
      otherwise `e` goes at the end. */
  function Assign(d: seq<StagedRule>, e: StagedRule): seq<StagedRule>
    decreases |d|
  {
    if d == [] then [e]
    else if d[0].id == e.id then [e] + d[1..]
    else [d[0]] + Assign(d[1..], e)
  }

  /** On a dict, assignment keeps ids unique, and afterwards the dict holds
      `e` and every earlier value with a different id. */
  lemma AssignContents(d: seq<StagedRule>, e: StagedRule)
    requires UniqueIds(d)
    ensures UniqueIds(Assign(d, e))
    ensures forall x :: x in Assign(d, e) <==> x == e || (x in d && x.id != e.id)
  {
    AssignMembers(d, e);
    AssignUnique(d, e);
  }

  lemma {:induction false} AssignMembers(d: seq<StagedRule>, e: StagedRule)
    requires UniqueIds(d)
    ensures forall x :: x in Assign(d, e) <==> x == e || (x in d && x.id != e.id)
    decreases |d|
  {
    if d != [] {
      assert d == [d[0]] + d[1..];
      if d[0].id == e.id {
        forall x | x in d[1..]
          ensures x.id != e.id
        {
          var k :| 0 <= k < |d[1..]| && d[1..][k] == x;
          assert d[k + 1] == x;
        }
      } else {
        assert UniqueIds(d[1..]) by {
          forall i, j | 0 <= i < j < |d[1..]| ensures d[1..][i].id != d[1..][j].id {
            assert d[1..][i] == d[i + 1] && d[1..][j] == d[j + 1];
          }
        }
        AssignMembers(d[1..], e);
      }
    }
  }

  lemma {:induction false} AssignUnique(d: seq<StagedRule>, e: StagedRule)
    requires UniqueIds(d)
    ensures UniqueIds(Assign(d, e))
    decreases |d|
  {
    if d != [] {
      var r := Assign(d, e);
      assert d == [d[0]] + d[1..];
      assert UniqueIds(d[1..]) by {
        forall i, j | 0 <= i < j < |d[1..]| ensures d[1..][i].id != d[1..][j].id {
          assert d[1..][i] == d[i + 1] && d[1..][j] == d[j + 1];
        }
      }
      if d[0].id == e.id {
        forall i, j | 0 <= i < j < |r|
          ensures r[i].id != r[j].id
        {
          assert r[j] == d[j];
          if i > 0 {
            assert r[i] == d[i];
          }
        }
      } else {
        AssignMembers(d[1..], e);
        AssignUnique(d[1..], e);
        var tail := Assign(d[1..], e);
        assert r == [d[0]] + tail;
        forall i, j | 0 <= i < j < |r|
          ensures r[i].id != r[j].id
        {
          if i == 0 {
            assert r[j] in tail;
            if r[j] != e {
              var k :| 0 <= k < |d[1..]| && d[1..][k] == r[j];
              assert d[k + 1] == r[j];
            }
          } else {
            assert r[i] == tail[i - 1] && r[j] == tail[j - 1];
          }
        }
      }
    }
  }

  /** The values of `rules` after the first loop of `save_env_output`. */
  function Collected(entries: seq<StagedRule>): seq<StagedRule>
    decreases |entries|
  {
    if entries == [] then []
    else Assign(Collected(entries[..|entries| - 1]), entries[|entries| - 1])
  }

  /** The position of the last entry with id `id`. */
  function LastIndex(entries: seq<StagedRule>, id: int): (r: nat)
    requires id in Ids(entries)
    ensures r < |entries| && entries[r].id == id
    ensures forall j :: r < j < |entries| ==> entries[j].id != id
    decreases |entries|
  {
    var n := |entries| - 1;
    if entries[n].id == id then n
    else
      assert id in Ids(entries[..n]) by {
        var x :| x in entries && x.id == id;
        var k :| 0 <= k < |entries| && entries[k] == x;
        assert entries[..n][k] == x;
      }
      LastIndex(entries[..n], id)
  }

  lemma IdsSnoc(xs: seq<StagedRule>, x: StagedRule)
    ensures Ids(xs + [x]) == Ids(xs) + {x.id}
  {
    forall y | y in xs + [x]
      ensures y in xs || y == x
    {
    }
  }

  lemma LastIndexSnoc(xs: seq<StagedRule>, x: StagedRule, id: int)
    requires id in Ids(xs) && id != x.id
    ensures id in Ids(xs + [x]) && LastIndex(xs + [x], id) == LastIndex(xs, id)
  {
    IdsSnoc(xs, x);
    assert (xs + [x])[..|xs|] == xs;
  }

  /** The collected dict holds exactly one value per input id: the last
      entry with that id. */
  lemma {:induction false} CollectedLastWins(entries: seq<StagedRule>)
    ensures UniqueIds(Collected(entries))
    ensures forall x :: x in Collected(entries) <==>
              x.id in Ids(entries) && x == entries[LastIndex(entries, x.id)]
    decreases |entries|
  {
    if entries != [] {
      var n := |entries| - 1;
      var xs := entries[..n];
      var e := entries[n];
      assert entries == xs + [e];
      CollectedLastWins(xs);
      AssignContents(Collected(xs), e);
      IdsSnoc(xs, e);
      forall x
        ensures x in Collected(entries) <==>
                x.id in Ids(entries) && x == entries[LastIndex(entries, x.id)]
      {
        if x.id != e.id && x.id in Ids(xs) {
          LastIndexSnoc(xs, e, x.id);
          assert entries[LastIndex(xs, x.id)] == xs[LastIndex(xs, x.id)];
        }
      }
    }
  }

  // ---------------------------------------------------------------------
  // sorted(rules.values(), key=id)
  // ---------------------------------------------------------------------

  /** Inserts `x` after every element whose id is not larger (stable). */
  function Insert(s: seq<StagedRule>, x: StagedRule): (r: seq<StagedRule>)
    ensures multiset(r) == multiset(s) + multiset{x}
    decreases |s|
  {
    if s == [] then [x]
    else if x.id < s[0].id then [x] + s
    else
      assert s == [s[0]] + s[1..];
      [s[0]] + Insert(s[1..], x)
  }

  /** A bound below every id, and below the inserted one, stays below every
      id after insertion. */
  lemma {:induction false} InsertBounded(s: seq<StagedRule>, x: StagedRule, b: int)
    requires forall k :: 0 <= k < |s| ==> b <= s[k].id
    requires b <= x.id
    ensures forall k :: 0 <= k < |Insert(s, x)| ==> b <= Insert(s, x)[k].id
    decreases |s|
  {
    if s != [] && s[0].id <= x.id {
      InsertBounded(s[1..], x, b);
      var tail := Insert(s[1..], x);
      assert Insert(s, x) == [s[0]] + tail;
    }
  }

  /** Insertion keeps a list ascending by id. */
  lemma {:induction false} InsertAscending(s: seq<StagedRule>, x: StagedRule)
    requires AscendingById(s)
    ensures AscendingById(Insert(s, x))
    decreases |s|
  {
    if s != [] && s[0].id <= x.id {
      var tail := Insert(s[1..], x);
      InsertAscending(s[1..], x);
      InsertBounded(s[1..], x, s[0].id);
      ConsAscending(s[0], tail);
      assert Insert(s, x) == [s[0]] + tail;
    }
  }

  lemma ConsAscending(h: StagedRule, tail: seq<StagedRule>)
    requires AscendingById(tail)
    requires forall k :: 0 <= k < |tail| ==> h.id <= tail[k].id
    ensures AscendingById([h] + tail)
  {
    var r := [h] + tail;
    forall i, j | 0 <= i < j < |r|
      ensures r[i].id <= r[j].id
    {
      assert r[j] == tail[j - 1];
      if i > 0 {
        assert r[i] == tail[i - 1];
      }
    }
  }

  /** `sorted(xs, key=lambda r: r["id"])` (insertion sort, stable). */
  function SortById(xs: seq<StagedRule>): (r: seq<StagedRule>)
    ensures multiset(r) == multiset(xs)
    ensures AscendingById(r)
    decreases |xs|
  {
    if xs == [] then []
    else
      var n := |xs| - 1;
      assert xs == xs[..n] + [xs[n]];
      InsertAscending(SortById(xs[..n]), xs[n]);
      Insert(SortById(xs[..n]), xs[n])
  }

  /** What `save_env_output` writes under "rules". */
  function Staged(entries: seq<StagedRule>): (r: seq<StagedRule>)
    ensures UniqueIds(r)
    ensures forall x :: x in r ==> x in entries
  {
    var collected := Collected(entries);
    CollectedLastWins(entries);
    UniqueIdsPermutation(collected, SortById(collected));
    assert forall x :: x in SortById(collected) ==> x in multiset(collected);
    SortById(collected)
  }

  /** A list without repeated ids holds each value at most once. */
  lemma {:induction false} UniqueIdsCount(xs: seq<StagedRule>, v: StagedRule)
    requires UniqueIds(xs)
    ensures multiset(xs)[v] <= 1
    decreases |xs|
  {
    if xs != [] {
      var n := |xs| - 1;
      assert xs == xs[..n] + [xs[n]];
      UniqueIdsCount(xs[..n], v);
      if xs[n] == v {
        forall k | 0 <= k < n
          ensures xs[..n][k] != v
        {
          assert xs[k].id != xs[n].id;
        }
        assert v !in xs[..n];
      }
    }
  }

  /** A value found at two positions occurs at least twice. */
  lemma TwoPositions(ys: seq<StagedRule>, i: nat, j: nat)
    requires i < j < |ys| && ys[i] == ys[j]
    ensures multiset(ys)[ys[i]] >= 2
  {
    assert ys == ys[..j] + [ys[j]] + ys[j + 1..];
    assert ys[..j][i] == ys[i];
  }

  /** A permutation of a list without repeated ids has none either. */
  lemma UniqueIdsPermutation(xs: seq<StagedRule>, ys: seq<StagedRule>)
    requires multiset(xs) == multiset(ys) && UniqueIds(xs)
    ensures UniqueIds(ys)
  {
    forall i, j | 0 <= i < j < |ys|
      ensures ys[i].id != ys[j].id
    {
      if ys[i].id == ys[j].id {
        assert ys[i] in multiset(xs) && ys[j] in multiset(xs);
        var a :| 0 <= a < |xs| && xs[a] == ys[i];
        var b :| 0 <= b < |xs| && xs[b] == ys[j];
        assert a == b;
        TwoPositions(ys, i, j);
        UniqueIdsCount(xs, ys[i]);
        assert false;
      }
    }
  }

  /** Staged ids are strictly ascending. */
  lemma StagedAscending(entries: seq<StagedRule>)
    ensures StrictlyAscending(Staged(entries))
  {
    CollectedLastWins(entries);
    var s := Staged(entries);
    UniqueIdsPermutation(Collected(entries), s);
  }

  /** Every input entry's id is staged exactly once, and nothing else is:
      the staged ids are exactly the input ids. */
  lemma StagedIds(entries: seq<StagedRule>)
    ensures Ids(Staged(entries)) == Ids(entries)
  {
    CollectedLastWins(entries);
    var s := Staged(entries);
    forall id | id in Ids(entries)
      ensures id in Ids(s)
    {
      var x := entries[LastIndex(entries, id)];
      assert x in Collected(entries);
      assert x in multiset(s);
    }
    forall id | id in Ids(s)
      ensures id in Ids(entries)
    {
      var x :| x in s && x.id == id;
      assert x in multiset(Collected(entries));
    }
  }

  /** For a repeated id, the last entry's org id and content are staged. */
  lemma StagedLastWins(entries: seq<StagedRule>)
    ensures forall x :: x in Staged(entries) ==>
              x.id in Ids(entries) && x == entries[LastIndex(entries, x.id)]
  {
    CollectedLastWins(entries);
    forall x | x in Staged(entries)
      ensures x.id in Ids(entries) && x == entries[LastIndex(entries, x.id)]
    {
      assert x in multiset(Collected(entries));
    }
  }

  // ---------------------------------------------------------------------
  // The env document
  // ---------------------------------------------------------------------

  /** One staged rule as the JSON object written to the env file. */
  function RecordOf(x: StagedRule): Value {
    Dict(map["id" := Int(x.id), "org_id" := Int(x.orgId), "content" := x.content])
  }

  /** The env document: `{"env": ..., "updated_at": ..., "rules": [...]}`;
      the timestamp comes from the clock and is a parameter. */
  function EnvDocument(env: string, updatedAt: string, rules: seq<StagedRule>): (r: Value)
    ensures r.Dict? && "rules" in r.fields && r.fields["rules"].List?
    ensures |r.fields["rules"].items| == |rules|
    ensures forall i :: 0 <= i < |rules| ==> r.fields["rules"].items[i] == RecordOf(rules[i])
  {
    Dict(map["env" := Str(env), "updated_at" := Str(updatedAt),
             "rules" := List(seq(|rules|, i requires 0 <= i < |rules| => RecordOf(rules[i])))])
  }

  /** `save_env_output(env, entries)`: keys the entries by id, sorts them and
      returns the document it writes. */
  method SaveEnvOutput(env: string, updatedAt: string, entries: seq<StagedRule>) returns (doc: Value)
    ensures doc == EnvDocument(env, updatedAt, Staged(entries))
  {
    var rules: seq<StagedRule> := [];
    for i := 0 to |entries|
      invariant rules == Collected(entries[..i])
    {
      assert entries[..i + 1][..i] == entries[..i];
      rules := Assign(rules, entries[i]);
    }
    assert entries[..|entries|] == entries;
    var sorted := SortById(rules);
    doc := EnvDocument(env, updatedAt, sorted);
  }

  // ---------------------------------------------------------------------
  // The fetch loop
  // ---------------------------------------------------------------------

  /** The fetch loop: each candidate row is passed through `process`
      (`process_rule` in the program); the rewritten ones are collected in
      row order, and a raise ends the loop. */
  function Aggregated(process: Value -> Result<Option<Value>>, rows: seq<CandidateRow>): Result<seq<StagedRule>>
    decreases |rows|
  {
    if rows == [] then Ok([])
    else
      var n := |rows| - 1;
      var prev :- Aggregated(process, rows[..n]);
      var updated :- process(rows[n].content);
      if updated.Some? then Ok(prev + [StagedRule(rows[n].id, rows[n].orgId, updated.value)])
      else Ok(prev)
  }

  /** The fetch step with `process_rule` and a given JSON decoder. */
  function Processed(decode: string -> Option<Value>): Value -> Result<Option<Value>> {
    (content: Value) => RuleContent.ProcessedRule(content, decode)
  }

  lemma AggregatedSnoc(process: Value -> Result<Option<Value>>, rows: seq<CandidateRow>, row: CandidateRow)
    ensures Aggregated(process, rows + [row])
            == match Aggregated(process, rows)
               case Raised => Raised
               case Ok(prev) =>
                 match process(row.content)
                 case Raised => Raised
                 case Ok(updated) =>
                   if updated.Some? then Ok(prev + [StagedRule(row.id, row.orgId, updated.value)])
                   else Ok(prev)
  {
    assert (rows + [row])[..|rows|] == rows;
  }

  /** The row at `i` was rewritten into `content`. */
  predicate Rewritten(process: Value -> Result<Option<Value>>, rows: seq<CandidateRow>, i: int, content: Value)
    requires 0 <= i < |rows|
  {
    process(rows[i].content) == Ok(Some(content))
  }

  /** The fetch loop fails exactly when processing some row raises; otherwise
      it stages one entry per rewritten row, with that row's id and org id,
      and no other entry. */
  lemma {:induction false} AggregatedRows(process: Value -> Result<Option<Value>>, rows: seq<CandidateRow>)
    ensures Aggregated(process, rows).Raised? <==>
            exists i :: 0 <= i < |rows| && process(rows[i].content).Raised?
    ensures Aggregated(process, rows).Ok? ==>
              (forall x :: x in Aggregated(process, rows).value <==>
                 exists i :: 0 <= i < |rows| && rows[i].id == x.id && rows[i].orgId == x.orgId
                             && Rewritten(process, rows, i, x.content))
    ensures Aggregated(process, rows).Ok? ==> |Aggregated(process, rows).value| <= |rows|
    decreases |rows|
  {
    if rows != [] {
      var n := |rows| - 1;
      var xs := rows[..n];
      assert rows == xs + [rows[n]];
      AggregatedSnoc(process, xs, rows[n]);
      AggregatedRows(process, xs);
      if exists i :: 0 <= i < n && process(xs[i].content).Raised? {
        var i :| 0 <= i < n && process(xs[i].content).Raised?;
        assert rows[i] == xs[i];
      }
      if exists i :: 0 <= i < |rows| && process(rows[i].content).Raised? {
        var i :| 0 <= i < |rows| && process(rows[i].content).Raised?;
        if i < n {
          assert rows[i] == xs[i];
        }
      }
      if Aggregated(process, rows).Ok? {
        var prev := Aggregated(process, xs).value;
        var r := Aggregated(process, rows).value;
        forall x
          ensures x in r <==>
                  exists i :: 0 <= i < |rows| && rows[i].id == x.id && rows[i].orgId == x.orgId
                              && Rewritten(process, rows, i, x.content)
        {
          if x in prev {
            var i :| 0 <= i < n && xs[i].id == x.id && xs[i].orgId == x.orgId
                     && Rewritten(process, xs, i, x.content);
            assert rows[i] == xs[i];
          }
          if exists i :: 0 <= i < |rows| && rows[i].id == x.id && rows[i].orgId == x.orgId
                         && Rewritten(process, rows, i, x.content) {
            var i :| 0 <= i < |rows| && rows[i].id == x.id && rows[i].orgId == x.orgId
                     && Rewritten(process, rows, i, x.content);
            if i < n {
              assert rows[i] == xs[i];
              assert Rewritten(process, xs, i, x.content);
            }
          }
        }
      }
    }
  }

  /** The outcome of a fetch: how many rules were converted, and the env
      document written, if any (nothing is written when no rule changed). */
  datatype Fetched = Fetched(converted: nat, document: Option<Value>)

  /** The fetch path of `main`: processes every candidate row, counts the
      rewritten ones and saves them when there is at least one. */
  method Fetch(env: string, updatedAt: string, rows: seq<CandidateRow>, decode: string -> Option<Value>)
    returns (r: Result<Fetched>)
    ensures r.Raised? <==> Aggregated(Processed(decode), rows).Raised?
    ensures r.Ok? ==> r.value.converted == |Aggregated(Processed(decode), rows).value|
    ensures r.Ok? ==>
              r.value.document == if r.value.converted == 0 then None
                                  else Some(EnvDocument(env, updatedAt, Staged(Aggregated(Processed(decode), rows).value)))
  {
    var aggregated: seq<StagedRule> := [];
    var converted := 0;
    for i := 0 to |rows|
      invariant Aggregated(Processed(decode), rows[..i]) == Ok(aggregated)
      invariant converted == |aggregated|
    {
      assert rows[..i + 1] == rows[..i] + [rows[i]];
      AggregatedSnoc(Processed(decode), rows[..i], rows[i]);
      var updated := RuleContent.ProcessRule(rows[i].content, decode);
      if updated.Raised? {
        AggregatedRaisesEarly(Processed(decode), rows, i + 1);
        return Raised;
      }
      if updated.value.Some? {
        aggregated := aggregated + [StagedRule(rows[i].id, rows[i].orgId, updated.value.value)];
        converted := converted + 1;
      }
    }
    assert rows[..|rows|] == rows;
    if aggregated != [] {
      var doc := SaveEnvOutput(env, updatedAt, aggregated);
      return Ok(Fetched(converted, Some(doc)));
    }
    return Ok(Fetched(converted, None));
  }

  /** Once processing a prefix of the rows raises, the whole fetch does. */
  lemma AggregatedRaisesEarly(process: Value -> Result<Option<Value>>, rows: seq<CandidateRow>, k: nat)
    requires k <= |rows| && Aggregated(process, rows[..k]).Raised?
    ensures Aggregated(process, rows).Raised?
  {
    AggregatedRows(process, rows[..k]);
    var i :| 0 <= i < k && process(rows[..k][i].content).Raised?;
    assert rows[..k][i] == rows[i];
    AggregatedRows(process, rows);
  }
}
