/** The fact rewrite at the heart of the migration (main.py:95-171): a legacy
    `sender_receiver` marker becomes a de-duplicated list of canonical
    perspective objects, and the fact is re-tagged. */
module Perspectives {
  import opened Wrappers
  import opened PyValues

  const SenderField: string := "sender_entity_id"
  const ReceiverField: string := "receiver_entity_id"
  const AggregationType: string := "MULTIPLE_PERSPECTIVES_AGGREGATION"

  /** The three canonical marker tokens. */
  datatype Marker = Sender | Receiver | SenderReceiver

  function MarkerName(m: Marker): string {
    match m
    case Sender => "sender"
    case Receiver => "receiver"
    case SenderReceiver => "sender_receiver"
  }

  /** `to_perspective_object`: the canonical perspective record. */
  function PerspectiveObject(field: string): (r: Value)
    ensures r.Dict? && Get(r.fields, "type") == Str("FIELD") && Get(r.fields, "model") == Str("txn_event")
    ensures field != "" ==> Classify(r) == Keyed(field)
  {
    Dict(map["type" := Str("FIELD"), "field" := Str(field), "model" := Str("txn_event"), "datatype" := Str("text")])
  }

  /** `normalize_sender_receiver`: the marker a value denotes, if any. */
  function Normalize(v: Value): (r: Option<Marker>)
    ensures r.Some? ==> v.Str? && Key(v.s) in Spellings(r.value)
  {
    if !v.Str? then None
    else
      var t := Key(v.s);
      if t == "sender" then Some(Sender)
      else if t == "receiver" then Some(Receiver)
      else if t == "sender_receiver" then Some(SenderReceiver)
      else if t == "senderreceiver" || t == "both" || t == "sender_and_receiver" then Some(SenderReceiver)
      else if t == "s" then Some(Sender)
      else if t == "r" then Some(Receiver)
      else None
  }

  /** The spellings (after trimming and lower-casing) that denote each marker. */
  function Spellings(m: Marker): set<string> {
    match m
    case Sender => {"sender", "s"}
    case Receiver => {"receiver", "r"}
    case SenderReceiver => {"sender_receiver", "senderreceiver", "both", "sender_and_receiver"}
  }

  predicate IsPlainLower(s: string) {
    forall i :: 0 <= i < |s| ==> ('a' <= s[i] <= 'z' || s[i] == '_')
  }

  lemma KeyOfPlain(s: string)
    requires IsPlainLower(s)
    ensures Key(s) == s
  {
    assert TrimStart(s) == s;
    assert TrimEnd(s) == s;
    assert Lower(s) == s;
  }

  /** Normalisation agrees with the spelling table, in both directions. */
  lemma NormalizeMatchesSpellings(v: Value, m: Marker)
    ensures Normalize(v) == Some(m) <==> v.Str? && Key(v.s) in Spellings(m)
  {
  }

  /** Everything outside the spelling table, and every non-string, is not
      recognised. */
  lemma NormalizeRejects(v: Value)
    ensures Normalize(v).None? <==> !v.Str? || forall m: Marker :: Key(v.s) !in Spellings(m)
  {
    if v.Str? && Normalize(v).Some? {
      NormalizeMatchesSpellings(v, Normalize(v).value);
    }
  }

  /** A canonical token normalises to itself. */
  lemma NormalizeCanonical(m: Marker)
    ensures Normalize(Str(MarkerName(m))) == Some(m)
  {
    match m
    case Sender => KeyOfPlain("sender");
    case Receiver => KeyOfPlain("receiver");
    case SenderReceiver => KeyOfPlain("sender_receiver");
  }

  /** A plain lower-case spelling from the table ("both", "s",
      "sender_and_receiver", ...) normalises to its marker. */
  lemma NormalizePlain(s: string, m: Marker)
    requires IsPlainLower(s) && s in Spellings(m)
    ensures Normalize(Str(s)) == Some(m)
  {
    KeyOfPlain(s);
    NormalizeMatchesSpellings(Str(s), m);
  }

  /** Normalisation ignores letter case ("SENDER", "SenderReceiver"). */
  lemma NormalizeIgnoresCase(s: string)
    ensures Normalize(Str(Upper(s))) == Normalize(Str(s))
  {
    KeyIgnoresCase(s);
  }

  /** Normalisation ignores surrounding whitespace. */
  lemma NormalizeIgnoresPadding(ws1: string, s: string, ws2: string)
    requires AllSpace(ws1) && AllSpace(ws2)
    ensures Normalize(Str(ws1 + s + ws2)) == Normalize(Str(s))
  {
    StripIgnoresPadding(ws1, s, ws2);
  }

  // ---------------------------------------------------------------------
  // merge_perspectives

  /** How the merge loop treats one entry: skipped (not a dict, or a falsy
      `field`), kept under its `field`, or raising (`field.strip()` on a
      truthy non-string). */
  datatype Entry = Dropped | Keyed(field: string) | Crashes

  function Classify(v: Value): Entry {
    if !v.Dict? then Dropped
    else
      var f := Get(v.fields, "field");
      if !Truthy(f) then Dropped
      else if f.Str? then Keyed(f.s)
      else Crashes
  }

  /** The de-duplication key of an entry, when it has one. */
  function KeyOf(v: Value): Option<string> {
    match Classify(v)
    case Keyed(f) => Some(Key(f))
    case _ => None
  }

  /** The keys of all keyed entries of a list. */
  function KeySet(items: seq<Value>): set<string> {
    if items == [] then {}
    else
      var last := items[|items| - 1];
      KeySet(items[..|items| - 1]) + (if KeyOf(last).Some? then {KeyOf(last).value} else {})
  }

  predicate HasCrash(items: seq<Value>) {
    exists i :: 0 <= i < |items| && Classify(items[i]).Crashes?
  }

  /** An entry in canonical shape, keyed by its own non-empty `field`. */
  predicate IsCanonical(v: Value) {
    Classify(v).Keyed? && v == PerspectiveObject(Classify(v).field)
  }

  /** One turn of the merge loop: append the entry in canonical shape unless
      it has no key or its key is already present. */
  function DedupStep(prev: seq<Value>, x: Value): seq<Value> {
    match Classify(x)
    case Keyed(f) => if Key(f) in KeySet(prev) then prev else prev + [PerspectiveObject(f)]
    case _ => prev
  }

  /** The merge loop's result on a list that raises nowhere. */
  function Deduplicated(items: seq<Value>): (r: seq<Value>)
    ensures |r| <= |items|
    decreases |items|
  {
    if items == [] then []
    else DedupStep(Deduplicated(items[..|items| - 1]), items[|items| - 1])
  }

  /** `merge_perspectives(existing, additions)`. */
  function Merged(existing: seq<Value>, additions: seq<Value>): (r: Result<seq<Value>>)
    ensures r.Raised? <==> HasCrash(existing + additions)
    ensures r.Ok? ==> IsMergedList(r.value) && |r.value| <= |existing| + |additions|
  {
    var items := existing + additions;
    DedupShape(items);
    if HasCrash(items) then Raised else Ok(Deduplicated(items))
  }

  lemma CanonicalKept(f: string)
    requires f != ""
    ensures Classify(PerspectiveObject(f)) == Keyed(f)
    ensures IsCanonical(PerspectiveObject(f))
  {
  }

  lemma DedupSnoc(xs: seq<Value>, x: Value)
    ensures Deduplicated(xs + [x]) == DedupStep(Deduplicated(xs), x)
  {
    assert (xs + [x])[..|xs|] == xs;
  }

  lemma KeySetSnoc(xs: seq<Value>, x: Value)
    ensures KeySet(xs + [x]) == KeySet(xs) + (if KeyOf(x).Some? then {KeyOf(x).value} else {})
  {
    assert (xs + [x])[..|xs|] == xs;
  }

  lemma HasCrashSnoc(xs: seq<Value>, x: Value)
    ensures HasCrash(xs + [x]) <==> HasCrash(xs) || Classify(x).Crashes?
  {
    if HasCrash(xs) {
      var i :| 0 <= i < |xs| && Classify(xs[i]).Crashes?;
      assert (xs + [x])[i] == xs[i];
    }
    if HasCrash(xs + [x]) {
      var i :| 0 <= i < |xs| + 1 && Classify((xs + [x])[i]).Crashes?;
      if i < |xs| {
        assert (xs + [x])[i] == xs[i];
      }
    }
    if Classify(x).Crashes? {
      assert (xs + [x])[|xs|] == x;
    }
  }

  lemma {:induction false} KeySetHas(items: seq<Value>, i: nat)
    requires i < |items| && KeyOf(items[i]).Some?
    ensures KeyOf(items[i]).value in KeySet(items)
    decreases |items|
  {
    var n := |items| - 1;
    assert items == items[..n] + [items[n]];
    KeySetSnoc(items[..n], items[n]);
    if i < n {
      assert items[..n][i] == items[i];
      KeySetHas(items[..n], i);
    }
  }

  lemma {:induction false} KeySetWitness(items: seq<Value>, k: string) returns (i: nat)
    requires k in KeySet(items)
    ensures i < |items| && KeyOf(items[i]) == Some(k)
    decreases |items|
  {
    var n := |items| - 1;
    assert items == items[..n] + [items[n]];
    KeySetSnoc(items[..n], items[n]);
    if k in KeySet(items[..n]) {
      i := KeySetWitness(items[..n], k);
      assert items[..n][i] == items[i];
    } else {
      i := n;
    }
  }

  /** A key is in `KeySet` exactly when some entry carries it. */
  lemma KeySetMembers(items: seq<Value>, k: string)
    ensures k in KeySet(items) <==> exists i :: 0 <= i < |items| && KeyOf(items[i]) == Some(k)
  {
    if k in KeySet(items) {
      var i := KeySetWitness(items, k);
    }
    if exists i :: 0 <= i < |items| && KeyOf(items[i]) == Some(k) {
      var i :| 0 <= i < |items| && KeyOf(items[i]) == Some(k);
      KeySetHas(items, i);
    }
  }

  /** The keys after one more turn of the loop. */
  lemma DedupStepKeys(prev: seq<Value>, x: Value)
    ensures KeySet(DedupStep(prev, x)) == KeySet(prev) + (if KeyOf(x).Some? then {KeyOf(x).value} else {})
  {
    match Classify(x)
    case Keyed(f) =>
      if Key(f) !in KeySet(prev) {
        CanonicalKept(f);
        KeySetSnoc(prev, PerspectiveObject(f));
      }
    case _ =>
  }

  /** The merge keeps exactly the keys of its input. */
  lemma {:induction false} DedupKeySet(items: seq<Value>)
    ensures KeySet(Deduplicated(items)) == KeySet(items)
    decreases |items|
  {
    if items != [] {
      var n := |items| - 1;
      var xs := items[..n];
      assert items == xs + [items[n]];
      DedupKeySet(xs);
      DedupSnoc(xs, items[n]);
      KeySetSnoc(xs, items[n]);
      DedupStepKeys(Deduplicated(xs), items[n]);
    }
  }

  /** The merged list is canonical and free of duplicate keys. */
  predicate IsMergedList(ps: seq<Value>) {
    && (forall j :: 0 <= j < |ps| ==> IsCanonical(ps[j]))
    && (forall j, k :: 0 <= j < k < |ps| ==> KeyOf(ps[j]) != KeyOf(ps[k]))
  }

  lemma DedupStepShape(prev: seq<Value>, x: Value)
    requires IsMergedList(prev)
    ensures IsMergedList(DedupStep(prev, x))
  {
    match Classify(x)
    case Keyed(f) =>
      if Key(f) !in KeySet(prev) {
        CanonicalKept(f);
        var r := prev + [PerspectiveObject(f)];
        forall j | 0 <= j < |prev|
          ensures KeyOf(r[j]) != KeyOf(r[|prev|])
        {
          KeySetMembers(prev, Key(f));
        }
      }
    case _ =>
  }

  /** Every merged entry is canonical and no two share a key. */
  lemma {:induction false} DedupShape(items: seq<Value>)
    ensures IsMergedList(Deduplicated(items))
    decreases |items|
  {
    if items != [] {
      var n := |items| - 1;
      var xs := items[..n];
      assert items == xs + [items[n]];
      DedupShape(xs);
      DedupSnoc(xs, items[n]);
      DedupStepShape(Deduplicated(xs), items[n]);
    }
  }

  /** Entry `i` is the first one carrying its key. */
  predicate IsFirst(items: seq<Value>, i: int)
    requires 0 <= i < |items|
  {
    KeyOf(items[i]).Some? && forall j :: 0 <= j < i ==> KeyOf(items[j]) != KeyOf(items[i])
  }

  /** The positions below `n` that hold the first occurrence of a key, ascending. */
  function FirstIndices(items: seq<Value>, n: nat): (idx: seq<nat>)
    requires n <= |items|
    ensures forall k :: 0 <= k < |idx| ==> idx[k] < n && IsFirst(items, idx[k])
    ensures forall k, l :: 0 <= k < l < |idx| ==> idx[k] < idx[l]
    ensures forall i :: 0 <= i < n && IsFirst(items, i) ==> i in idx
  {
    if n == 0 then []
    else FirstIndices(items, n - 1) + (if IsFirst(items, n - 1) then [n - 1] else [])
  }

  function Canonicalize(v: Value): Value {
    match Classify(v)
    case Keyed(f) => PerspectiveObject(f)
    case _ => v
  }

  /** The canonical forms of the entries at the given positions. */
  function Pick(items: seq<Value>, idx: seq<nat>): seq<Value>
    requires forall k :: 0 <= k < |idx| ==> idx[k] < |items|
  {
    seq(|idx|, k requires 0 <= k < |idx| => Canonicalize(items[idx[k]]))
  }

  lemma PickSnoc(items: seq<Value>, idx: seq<nat>, i: nat)
    requires forall k :: 0 <= k < |idx| ==> idx[k] < |items|
    requires i < |items|
    ensures Pick(items, idx + [i]) == Pick(items, idx) + [Canonicalize(items[i])]
  {
  }

  /** Entry `m` is first for its key exactly when the loop appends it. */
  lemma FirstMeansUnseen(items: seq<Value>, m: nat)
    requires m < |items|
    ensures IsFirst(items, m) <==> KeyOf(items[m]).Some? && KeyOf(items[m]).value !in KeySet(items[..m])
  {
    if KeyOf(items[m]).Some? {
      var k := KeyOf(items[m]).value;
      KeySetMembers(items[..m], k);
      if k in KeySet(items[..m]) {
        var j :| 0 <= j < m && KeyOf(items[..m][j]) == Some(k);
        assert items[..m][j] == items[j];
      } else {
        forall j | 0 <= j < m
          ensures KeyOf(items[j]) != KeyOf(items[m])
        {
          assert items[..m][j] == items[j];
        }
      }
    }
  }

  lemma {:induction false} DedupPrefixFirstOccurrences(items: seq<Value>, n: nat)
    requires n <= |items|
    ensures Deduplicated(items[..n]) == Pick(items, FirstIndices(items, n))
  {
    if n > 0 {
      var m := n - 1;
      DedupPrefixFirstOccurrences(items, m);
      var idx := FirstIndices(items, m);
      var prev := Deduplicated(items[..m]);
      assert items[..n] == items[..m] + [items[m]];
      DedupSnoc(items[..m], items[m]);
      DedupKeySet(items[..m]);
      FirstMeansUnseen(items, m);
      if IsFirst(items, m) {
        var f := Classify(items[m]).field;
        assert DedupStep(prev, items[m]) == prev + [PerspectiveObject(f)];
        assert FirstIndices(items, n) == idx + [m];
        PickSnoc(items, idx, m);
      } else {
        assert DedupStep(prev, items[m]) == prev;
        assert FirstIndices(items, n) == idx;
      }
    }
  }

  /** The merge keeps, for every key, exactly the first entry carrying it,
      in canonical shape, and in input order. */
  lemma DedupFirstOccurrences(items: seq<Value>)
    ensures Deduplicated(items) == Pick(items, FirstIndices(items, |items|))
  {
    DedupPrefixFirstOccurrences(items, |items|);
    assert items[..|items|] == items;
  }

  /** Entries whose keys are already present are all absorbed. */
  lemma {:induction false} DedupAbsorbs(ps: seq<Value>, ys: seq<Value>)
    requires forall i :: 0 <= i < |ys| ==> KeyOf(ys[i]).None? || KeyOf(ys[i]).value in KeySet(ps)
    ensures Deduplicated(ps + ys) == Deduplicated(ps)
    decreases |ys|
  {
    if ys == [] {
      assert ps + ys == ps;
    } else {
      var n := |ys| - 1;
      assert ps + ys == (ps + ys[..n]) + [ys[n]];
      DedupAbsorbs(ps, ys[..n]);
      DedupSnoc(ps + ys[..n], ys[n]);
      DedupKeySet(ps);
    }
  }

  /** A list already in merged form is a fixed point of the merge. */
  lemma {:induction false} DedupOfMerged(ps: seq<Value>)
    requires IsMergedList(ps)
    ensures Deduplicated(ps) == ps
    decreases |ps|
  {
    if ps != [] {
      var n := |ps| - 1;
      assert ps == ps[..n] + [ps[n]];
      DedupOfMerged(ps[..n]);
      DedupSnoc(ps[..n], ps[n]);
      var f := Classify(ps[n]).field;
      forall j | 0 <= j < n
        ensures KeyOf(ps[..n][j]) != Some(Key(f))
      {
        assert ps[..n][j] == ps[j];
      }
      KeySetMembers(ps[..n], Key(f));
    }
  }

  /** Merging the same additions into a merged list changes nothing:
      `merge(merge(e, a), a) == merge(e, a)`. */
  lemma MergeIdempotent(existing: seq<Value>, additions: seq<Value>, m: seq<Value>)
    requires Merged(existing, additions) == Ok(m)
    ensures Merged(m, additions) == Ok(m)
  {
    var items := existing + additions;
    DedupShape(items);
    DedupKeySet(items);
    forall i | 0 <= i < |additions|
      ensures !Classify(additions[i]).Crashes?
      ensures KeyOf(additions[i]).None? || KeyOf(additions[i]).value in KeySet(m)
    {
      assert items[|existing| + i] == additions[i];
      if KeyOf(additions[i]).Some? {
        KeySetMembers(items, KeyOf(additions[i]).value);
      }
    }
    forall i | 0 <= i < |m + additions|
      ensures !Classify((m + additions)[i]).Crashes?
    {
      if i < |m| {
        assert (m + additions)[i] == m[i];
      } else {
        assert (m + additions)[i] == additions[i - |m|];
      }
    }
    DedupAbsorbs(m, additions);
    DedupOfMerged(m);
  }

  /** The imperative merge loop: a `seen` set and a `result` list. */
  method MergePerspectives(existing: seq<Value>, additions: seq<Value>) returns (r: Result<seq<Value>>)
    ensures r == Merged(existing, additions)
  {
    var items := existing + additions;
    var seen: set<string> := {};
    var result: seq<Value> := [];
    var i := 0;
    while i < |items|
      invariant 0 <= i <= |items|
      invariant result == Deduplicated(items[..i])
      invariant seen == KeySet(result)
      invariant !HasCrash(items[..i])
    {
      var obj := items[i];
      assert items[..i + 1] == items[..i] + [obj];
      HasCrashSnoc(items[..i], obj);
      DedupSnoc(items[..i], obj);
      if obj.Dict? {
        var field := Get(obj.fields, "field");
        if Truthy(field) {
          if !field.Str? {
            // `field.strip()` on a non-string raises AttributeError
            assert Classify(items[i]).Crashes?;
            return Raised;
          }
          var key := Key(field.s);
          if key !in seen {
            CanonicalKept(field.s);
            KeySetSnoc(result, PerspectiveObject(field.s));
            seen := seen + {key};
            result := result + [PerspectiveObject(field.s)];
          }
        }
      }
      i := i + 1;
    }
    assert items[..i] == items;
    r := Ok(result);
  }

  // ---------------------------------------------------------------------
  // convert_fact

  /** The perspective objects a marker calls for. */
  function Additions(m: Marker): seq<Value> {
    (if m == Sender || m == SenderReceiver then [PerspectiveObject(SenderField)] else [])
    + (if m == Receiver || m == SenderReceiver then [PerspectiveObject(ReceiverField)] else [])
  }

  /** The keys a marker calls for. */
  function AdditionKeys(m: Marker): set<string> {
    (if m == Sender || m == SenderReceiver then {SenderField} else {})
    + (if m == Receiver || m == SenderReceiver then {ReceiverField} else {})
  }

  /** `fact.get("perspectives")` when it is a list, else the empty list. */
  function ExistingPerspectives(fields: map<string, Value>): seq<Value> {
    var p := Get(fields, "perspectives");
    if p.List? then p.items else []
  }

  /** What `convert_fact` returns, and the fact as it leaves it. */
  datatype Conversion = Conversion(changed: bool, fact: Value)

  /** `convert_fact` on the value of one fact. */
  function ConvertedFact(fact: Value): (r: Result<Conversion>)
    ensures !fact.Dict? ==> r == Ok(Conversion(false, fact))
    ensures r.Ok? && !r.value.changed ==> r.value.fact == fact
    ensures r.Ok? && r.value.changed ==>
              && fact.Dict? && r.value.fact.Dict?
              && Get(r.value.fact.fields, "type") == Str(AggregationType)
              && Get(r.value.fact.fields, "perspectives").List?
  {
    if !fact.Dict? then Ok(Conversion(false, fact))
    else
      match Normalize(Get(fact.fields, "sender_receiver"))
      case None => Ok(Conversion(false, fact))
      case Some(m) =>
        match Merged(ExistingPerspectives(fact.fields), Additions(m))
        case Raised => Raised
        case Ok(ps) =>
          Ok(Conversion(true, Dict(Retagged(fact.fields, ps))))
  }

  /** The two field names are their own keys. */
  lemma FieldKeys()
    ensures Key(SenderField) == SenderField
    ensures Key(ReceiverField) == ReceiverField
  {
    KeyOfPlain(SenderField);
    KeyOfPlain(ReceiverField);
  }

  lemma SingleShape(f: string)
    requires f != ""
    ensures !HasCrash([PerspectiveObject(f)])
    ensures KeySet([PerspectiveObject(f)]) == {Key(f)}
  {
    CanonicalKept(f);
    KeySetSnoc([], PerspectiveObject(f));
    assert [] + [PerspectiveObject(f)] == [PerspectiveObject(f)];
  }

  lemma PairShape(f: string, g: string)
    requires f != "" && g != ""
    ensures !HasCrash([PerspectiveObject(f), PerspectiveObject(g)])
    ensures KeySet([PerspectiveObject(f), PerspectiveObject(g)]) == {Key(f), Key(g)}
  {
    SingleShape(f);
    CanonicalKept(g);
    KeySetSnoc([PerspectiveObject(f)], PerspectiveObject(g));
    assert [PerspectiveObject(f)] + [PerspectiveObject(g)] == [PerspectiveObject(f), PerspectiveObject(g)];
  }

  lemma AdditionsShape(m: Marker)
    ensures !HasCrash(Additions(m))
    ensures KeySet(Additions(m)) == AdditionKeys(m)
  {
    var s, r := PerspectiveObject(SenderField), PerspectiveObject(ReceiverField);
    FieldKeys();
    match m
    case Sender =>
      assert Additions(m) == [s];
      assert AdditionKeys(m) == {SenderField};
      SingleShape(SenderField);
    case Receiver =>
      assert Additions(m) == [r];
      assert AdditionKeys(m) == {ReceiverField};
      SingleShape(ReceiverField);
    case SenderReceiver =>
      assert Additions(m) == [s, r];
      assert AdditionKeys(m) == {SenderField, ReceiverField};
      PairShape(SenderField, ReceiverField);
  }

  lemma HasCrashAppend(xs: seq<Value>, ys: seq<Value>)
    requires !HasCrash(ys)
    ensures HasCrash(xs + ys) <==> HasCrash(xs)
  {
    if HasCrash(xs) {
      var i :| 0 <= i < |xs| && Classify(xs[i]).Crashes?;
      assert (xs + ys)[i] == xs[i];
    }
    if HasCrash(xs + ys) {
      var i :| 0 <= i < |xs + ys| && Classify((xs + ys)[i]).Crashes?;
      if i < |xs| {
        assert (xs + ys)[i] == xs[i];
      } else {
        assert (xs + ys)[i] == ys[i - |xs|];
      }
    }
  }

  /** A fact that is not a dict, or whose marker is not recognised, is
      reported unchanged and left as it was; a recognised marker always
      reports a change. */
  lemma ConvertFactUnchanged(fact: Value)
    ensures ConvertedFact(fact) == Ok(Conversion(false, fact))
            <==> !fact.Dict? || Normalize(Get(fact.fields, "sender_receiver")).None?
    ensures ConvertedFact(fact).Ok? && !ConvertedFact(fact).value.changed ==> ConvertedFact(fact).value.fact == fact
  {
  }

  /** `convert_fact` raises exactly when the marker is recognised and an
      existing perspective entry has a truthy non-string `field`. */
  lemma ConvertFactRaises(fact: Value)
    ensures ConvertedFact(fact).Raised?
            <==> fact.Dict? && Normalize(Get(fact.fields, "sender_receiver")).Some?
                 && HasCrash(ExistingPerspectives(fact.fields))
  {
    if fact.Dict? && Normalize(Get(fact.fields, "sender_receiver")).Some? {
      var m := Normalize(Get(fact.fields, "sender_receiver")).value;
      AdditionsShape(m);
      HasCrashAppend(ExistingPerspectives(fact.fields), Additions(m));
    }
  }

  lemma {:induction false} KeySetAppend(xs: seq<Value>, ys: seq<Value>)
    ensures KeySet(xs + ys) == KeySet(xs) + KeySet(ys)
    decreases |ys|
  {
    if ys == [] {
      assert xs + ys == xs;
    } else {
      var n := |ys| - 1;
      assert xs + ys == (xs + ys[..n]) + [ys[n]];
      KeySetSnoc(xs + ys[..n], ys[n]);
      KeySetSnoc(ys[..n], ys[n]);
      assert ys == ys[..n] + [ys[n]];
      KeySetAppend(xs, ys[..n]);
    }
  }

  /** A successful merge holds the keys of both lists, each once, in
      canonical shape. */
  lemma MergedShape(existing: seq<Value>, additions: seq<Value>, ps: seq<Value>)
    requires Merged(existing, additions) == Ok(ps)
    ensures KeySet(ps) == KeySet(existing) + KeySet(additions)
    ensures IsMergedList(ps)
  {
    DedupKeySet(existing + additions);
    DedupShape(existing + additions);
    KeySetAppend(existing, additions);
  }

  /** The fact's fields once `perspectives` and `type` are set. */
  function Retagged(fields: map<string, Value>, ps: seq<Value>): (r: map<string, Value>)
    ensures r.Keys == fields.Keys + {"perspectives", "type"}
    ensures r["type"] == Str(AggregationType) && r["perspectives"] == List(ps)
    ensures forall k :: k in fields && k != "perspectives" && k != "type" ==> r[k] == fields[k]
  {
    fields["perspectives" := List(ps)]["type" := Str(AggregationType)]
  }

  /** A converted fact: `type` is the aggregation marker, every other key
      (`sender_receiver` included) is untouched, and `perspectives` is a
      duplicate-free canonical list holding the old keys plus those the
      marker calls for. */
  lemma ConvertFactEffect(fact: Value, g: Value)
    requires ConvertedFact(fact) == Ok(Conversion(true, g))
    ensures fact.Dict? && g.Dict?
    ensures Normalize(Get(fact.fields, "sender_receiver")).Some?
    ensures g.fields.Keys == fact.fields.Keys + {"perspectives", "type"}
    ensures g.fields["type"] == Str(AggregationType)
    ensures forall k :: k in fact.fields && k != "perspectives" && k != "type" ==> g.fields[k] == fact.fields[k]
    ensures g.fields["perspectives"].List?
    ensures var ps := g.fields["perspectives"].items;
            var m := Normalize(Get(fact.fields, "sender_receiver")).value;
            && KeySet(ps) == KeySet(ExistingPerspectives(fact.fields)) + AdditionKeys(m)
            && IsMergedList(ps)
  {
    var m := Normalize(Get(fact.fields, "sender_receiver")).value;
    var e := ExistingPerspectives(fact.fields);
    var ps := Merged(e, Additions(m)).value;
    assert g == Dict(Retagged(fact.fields, ps));
    MergedShape(e, Additions(m), ps);
    AdditionsShape(m);
  }

  /** `convert_fact` on a dict whose marker is recognised and whose merge
      succeeds. */
  lemma ConvertedRecognised(fact: Value, m: Marker, ps: seq<Value>)
    requires fact.Dict? && Normalize(Get(fact.fields, "sender_receiver")) == Some(m)
    requires Merged(ExistingPerspectives(fact.fields), Additions(m)) == Ok(ps)
    ensures ConvertedFact(fact) == Ok(Conversion(true, Dict(Retagged(fact.fields, ps))))
  {
  }

  lemma RetaggedTwice(fields: map<string, Value>, ps: seq<Value>)
    ensures Retagged(Retagged(fields, ps), ps) == Retagged(fields, ps)
  {
  }

  /** Converting a converted fact again gives the same fact and the same
      report. */
  lemma ConvertFactIdempotent(fact: Value, c: Conversion)
    requires ConvertedFact(fact) == Ok(c)
    ensures ConvertedFact(c.fact) == Ok(c)
  {
    if c.changed {
      var m := Normalize(Get(fact.fields, "sender_receiver")).value;
      var e := ExistingPerspectives(fact.fields);
      var ps := Merged(e, Additions(m)).value;
      assert c.fact == Dict(Retagged(fact.fields, ps));
      var g := Retagged(fact.fields, ps);
      assert Get(g, "sender_receiver") == Get(fact.fields, "sender_receiver");
      assert ExistingPerspectives(g) == ps;
      MergeIdempotent(e, Additions(m), ps);
      RetaggedTwice(fact.fields, ps);
      ConvertedRecognised(c.fact, m, ps);
    }
  }

  /** The imperative `convert_fact`: builds the additions, merges, and sets
      `perspectives` and `type`. */
  method ConvertFact(fact: Value) returns (r: Result<Conversion>)
    ensures r == ConvertedFact(fact)
  {
    if !fact.Dict? {
      return Ok(Conversion(false, fact));
    }
    var sr := Normalize(Get(fact.fields, "sender_receiver"));
    if sr.None? {
      return Ok(Conversion(false, fact));
    }
    var additions: seq<Value> := [];
    if sr.value == Sender || sr.value == SenderReceiver {
      additions := additions + [PerspectiveObject(SenderField)];
    }
    if sr.value == Receiver || sr.value == SenderReceiver {
      additions := additions + [PerspectiveObject(ReceiverField)];
    }
    assert additions == Additions(sr.value);
    var existing := ExistingPerspectives(fact.fields);
    var merged := MergePerspectives(existing, additions);
    if merged.Raised? {
      return Raised;
    }
    var fields := fact.fields["perspectives" := List(merged.value)];
    fields := fields["type" := Str(AggregationType)];
    assert fields == Retagged(fact.fields, merged.value);
    r := Ok(Conversion(true, Dict(fields)));
  }
}
