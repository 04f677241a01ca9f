/** The database rows and backup files that `apply_rules_from_env_file` and
    `restore_from_backup` work on, and both operations as functions of that
    state: apply writes a backup of each destination and then overwrites it;
    restore writes every parsable backup back to the row it names. */
module Database {
  import opened Wrappers
  import opened PyValues
  import opened BackupNames
  import opened Sorting
  import Staging

  /** The status under which a rule's live content sits in its latest
      validation record rather than in the rule row. */
  const ValidationStatus := "VALIDATION"

  /** A `rule` row: its status (NULL allowed) and its content. */
  datatype Rule = Rule(status: Option<string>, content: Value)

  /** A `rule_validation` row. */
  datatype ValidationRow = ValidationRow(id: int, ruleId: int, createdAt: Option<int>, content: Value)

  /** A file in a backup directory: a JSON document, or a file that cannot
      be read back as JSON. */
  datatype BackupFile = Readable(doc: Value) | Unreadable

  type BackupDir = map<string, BackupFile>

  /** The `rule` table keyed by (id, org_id), the `rule_validation` table,
      and the backup directories keyed by (env, timestamp). */
  datatype World = World(
    rules: map<(int, int), Rule>,
    validations: seq<ValidationRow>,
    backups: map<(string, string), BackupDir>)

  /** A destination an UPDATE writes: a rule's content, or a validation
      record's content by validation id. */
  datatype Target = RuleTarget(ruleId: int, orgId: int) | ValidationTarget(validationId: int)

  /** The destination a parsed backup file name designates. */
  function TargetOf(d: Dest): Target {
    match d
    case RuleDest(r, o) => RuleTarget(r, o)
    case ValidationDest(_, _, v) => ValidationTarget(v)
  }

  /** The content of the first validation row with id `v`. */
  function ValidationContent(rows: seq<ValidationRow>, v: int): Option<Value>
    decreases |rows|
  {
    if rows == [] then None
    else if rows[0].id == v then Some(rows[0].content)
    else ValidationContent(rows[1..], v)
  }

  /** What a SELECT of the destination's content returns; None when no row
      matches. */
  function ContentAt(w: World, t: Target): Option<Value> {
    match t
    case RuleTarget(r, o) => if (r, o) in w.rules then Some(w.rules[(r, o)].content) else None
    case ValidationTarget(v) => ValidationContent(w.validations, v)
  }

  /** `UPDATE rule_validation SET rule_content = c WHERE id = v`. */
  function SetValidation(rows: seq<ValidationRow>, v: int, c: Value): seq<ValidationRow> {
    seq(|rows|, i requires 0 <= i < |rows| => if rows[i].id == v then rows[i].(content := c) else rows[i])
  }

  /** The UPDATE for a destination; one that matches no row changes nothing. */
  function Write(w: World, t: Target, c: Value): World {
    match t
    case RuleTarget(r, o) =>
      if (r, o) in w.rules then w.(rules := w.rules[(r, o) := w.rules[(r, o)].(content := c)]) else w
    case ValidationTarget(v) => w.(validations := SetValidation(w.validations, v, c))
  }

  /** Everything but the contents: rule keys and statuses, and the id,
      rule id and creation time of every validation row. */
  predicate SameShape(a: World, b: World) {
    && a.rules.Keys == b.rules.Keys
    && (forall k :: k in a.rules && k in b.rules ==> a.rules[k].status == b.rules[k].status)
    && |a.validations| == |b.validations|
    && (forall i :: 0 <= i < |a.validations| ==>
          a.validations[i].id == b.validations[i].id
          && a.validations[i].ruleId == b.validations[i].ruleId
          && a.validations[i].createdAt == b.validations[i].createdAt)
  }

  lemma SameShapeTransitive(a: World, b: World, c: World)
    requires SameShape(a, b) && SameShape(b, c)
    ensures SameShape(a, c)
  {
  }

  lemma {:induction false} SetValidationContent(rows: seq<ValidationRow>, v: int, c: Value, u: int)
    ensures ValidationContent(SetValidation(rows, v, c), u)
            == if u == v && ValidationContent(rows, u).Some? then Some(c) else ValidationContent(rows, u)
    decreases |rows|
  {
    if rows != [] {
      assert SetValidation(rows, v, c)[1..] == SetValidation(rows[1..], v, c);
      SetValidationContent(rows[1..], v, c, u);
    }
  }

  /** An UPDATE sets its own destination, when it exists, and no other;
      it changes no key, status, id or time, and no backup. */
  lemma WriteEffect(w: World, t: Target, c: Value)
    ensures ContentAt(Write(w, t, c), t) == if ContentAt(w, t).Some? then Some(c) else None
    ensures forall u :: u != t ==> ContentAt(Write(w, t, c), u) == ContentAt(w, u)
    ensures SameShape(Write(w, t, c), w)
    ensures Write(w, t, c).backups == w.backups
  {
    var w' := Write(w, t, c);
    forall u
      ensures ContentAt(w', u) == if u == t then (if ContentAt(w, t).Some? then Some(c) else None) else ContentAt(w, u)
    {
      if t.ValidationTarget? && u.ValidationTarget? {
        SetValidationContent(w.validations, t.validationId, c, u.validationId);
      }
    }
  }

  // ---------------------------------------------------------------------
  // ORDER BY created_at DESC NULLS LAST, id DESC
  // ---------------------------------------------------------------------

  /** `a` sorts before `b`: a later creation time first, rows without one
      last, and the larger id first among equal times. */
  predicate RanksBefore(a: ValidationRow, b: ValidationRow) {
    match a.createdAt
    case Some(x) => (match b.createdAt
                     case None => true
                     case Some(y) => x > y || (x == y && a.id > b.id))
    case None => b.createdAt.None? && a.id > b.id
  }

  /** `SELECT ... WHERE rule_id = ruleId ORDER BY ... LIMIT 1`. */
  function LatestValidation(rows: seq<ValidationRow>, ruleId: int): (best: Option<ValidationRow>)
    ensures best.Some? ==> best.value in rows && best.value.ruleId == ruleId
    ensures best.Some? ==> forall x :: x in rows && x.ruleId == ruleId ==> !RanksBefore(x, best.value)
    ensures best.None? ==> forall x :: x in rows ==> x.ruleId != ruleId
    decreases |rows|
  {
    if rows == [] then None
    else
      var n := |rows| - 1;
      var x := rows[n];
      var prev := LatestValidation(rows[..n], ruleId);
      assert rows == rows[..n] + [x];
      if x.ruleId != ruleId then prev
      else if prev.None? || RanksBefore(x, prev.value) then Some(x)
      else prev
  }

  /** No two validation rows share an id (the table's primary key). */
  predicate UniqueValidationIds(rows: seq<ValidationRow>) {
    forall i, j :: 0 <= i < j < |rows| ==> rows[i].id != rows[j].id
  }

  /** With unique ids the ordering has no ties, so the row it puts first is
      the only one that no other row of that rule sorts before. */
  lemma LatestIsUnique(rows: seq<ValidationRow>, ruleId: int, x: ValidationRow)
    requires UniqueValidationIds(rows)
    requires x in rows && x.ruleId == ruleId
    requires forall y :: y in rows && y.ruleId == ruleId ==> !RanksBefore(y, x)
    ensures LatestValidation(rows, ruleId) == Some(x)
  {
    var b := LatestValidation(rows, ruleId).value;
    assert !RanksBefore(x, b) && !RanksBefore(b, x);
    assert b.id == x.id;
  }

  /** With unique ids, a row's content is what its id selects. */
  lemma {:induction false} ValidationContentOfRow(rows: seq<ValidationRow>, x: ValidationRow)
    requires UniqueValidationIds(rows) && x in rows
    ensures ValidationContent(rows, x.id) == Some(x.content)
    decreases |rows|
  {
    if rows[0] != x {
      assert x in rows[1..];
      var k :| 0 <= k < |rows| && rows[k] == x;
      assert k != 0;
      assert rows[0].id != rows[k].id;
      assert UniqueValidationIds(rows[1..]) by {
        forall i, j | 0 <= i < j < |rows[1..]| ensures rows[1..][i].id != rows[1..][j].id {
          assert rows[1..][i] == rows[i + 1] && rows[1..][j] == rows[j + 1];
        }
      }
      ValidationContentOfRow(rows[1..], x);
    }
  }

  // ---------------------------------------------------------------------
  // Reading the env file
  // ---------------------------------------------------------------------

  /** What the backup file holds for prior content `prior`: a dict as it is,
      a string decoded as JSON (or wrapped as `{"raw": ...}` when it is not
      JSON), anything else as it is. */
  function BackupDoc(prior: Value, decode: string -> Option<Value>): (r: Value)
    ensures !prior.Str? ==> r == prior
    ensures prior.Str? ==> Some(r) == decode(prior.s) || (decode(prior.s).None? && r == Dict(map["raw" := prior]))
  {
    match prior
    case Dict(_) => prior
    case Str(s) => if decode(s).Some? then decode(s).value else Dict(map["raw" := prior])
    case _ => prior
  }

  /** The backup holds the prior content itself unless that content is a
      string: then it holds the decoded document, or the string under "raw". */
  lemma BackupDocOf(prior: Value, decode: string -> Option<Value>)
    ensures !prior.Str? ==> BackupDoc(prior, decode) == prior
    ensures prior.Str? && decode(prior.s).None? ==> BackupDoc(prior, decode) == Dict(map["raw" := prior])
    ensures prior.Str? && decode(prior.s).Some? ==> BackupDoc(prior, decode) == decode(prior.s).value
  {
  }

  /** Python's `int(text)` after stripping: an optional sign and ASCII
      digits. */
  function IntText(t: string): Option<int> {
    var negative := t != [] && t[0] == '-';
    var body := if t != [] && (t[0] == '-' || t[0] == '+') then t[1..] else t;
    if body != [] && AllDigits(body) then
      var magnitude: int := DigitsValue(body);
      Some(if negative then -magnitude else magnitude)
    else None
  }

  /** Python's `int(v)` on a JSON value; None where it raises. */
  function IntOf(v: Value): Option<int> {
    match v
    case Int(i) => Some(i)
    case Bool(b) => Some(if b then 1 else 0)
    case Float(r) => Some(if r >= 0.0 then r.Floor else -((-r).Floor))
    case Str(s) => IntText(Strip(s))
    case _ => None
  }

  /** The three fields of a staged item. */
  datatype Item = Item(ruleId: int, orgId: int, content: Value)

  /** The fields read from one element of "rules", or None when the loop
      skips it: it is not a dict (every such element either raises inside
      the `try` or yields a missing field), "id" or "org_id" is absent or not
      convertible by `int`, or "content" is absent or null. */
  function ItemOf(item: Value): (r: Option<Item>)
    ensures r.Some? ==> r.value.content != Null
  {
    if !item.Dict? then None
    else
      var f := item.fields;
      if "id" !in f || "org_id" !in f then None
      else
        var id := IntOf(f["id"]);
        var org := IntOf(f["org_id"]);
        var content := Get(f, "content");
        if id.None? || org.None? || content == Null then None
        else Some(Item(id.value, org.value, content))
  }

  /** `data.get("rules", [])` for a dict, `[]` otherwise, as the loop
      iterates it. A list yields its elements. A string or a dict yields
      strings only, and `ItemOf` skips every string, so they are taken as
      empty. A number, a boolean or null is not iterable: the loop raises. */
  function RulesList(data: Value): (r: Result<seq<Value>>)
    ensures !data.Dict? || "rules" !in data.fields ==> r == Ok([])
    ensures r.Raised? <==>
              data.Dict? && "rules" in data.fields
              && !(data.fields["rules"].List? || data.fields["rules"].Str? || data.fields["rules"].Dict?)
    ensures r.Ok? && r.value != [] ==> data.Dict? && "rules" in data.fields && data.fields["rules"] == List(r.value)
  {
    var rules := if data.Dict? && "rules" in data.fields then data.fields["rules"] else List([]);
    match rules
    case List(items) => Ok(items)
    case Str(_) => Ok([])
    case Dict(_) => Ok([])
    case _ => Raised
  }

  /** An item is skipped exactly when it is not a dict, lacks "id" or
      "org_id", has one that `int` rejects, or has no or null "content";
      otherwise its fields are read as they are. */
  lemma ItemOfFields(item: Value)
    ensures ItemOf(item).None? <==>
              || !item.Dict?
              || "id" !in item.fields || "org_id" !in item.fields
              || IntOf(item.fields["id"]).None? || IntOf(item.fields["org_id"]).None?
              || Get(item.fields, "content") == Null
    ensures ItemOf(item).Some? ==>
              && ItemOf(item).value.content == Get(item.fields, "content")
              && Some(ItemOf(item).value.ruleId) == IntOf(item.fields["id"])
              && Some(ItemOf(item).value.orgId) == IntOf(item.fields["org_id"])
  {
  }

  /** A staged rule, written out and read back, yields its own fields. */
  lemma ItemOfRecord(x: Staging.StagedRule)
    requires x.content != Null
    ensures ItemOf(Staging.RecordOf(x)) == Some(Item(x.id, x.orgId, x.content))
  {
  }

  /** The items of an env document are its staged rules. */
  lemma RulesListOfEnvDocument(env: string, updatedAt: string, rules: seq<Staging.StagedRule>)
    ensures RulesList(Staging.EnvDocument(env, updatedAt, rules)).Ok?
    ensures RulesList(Staging.EnvDocument(env, updatedAt, rules)).value
            == seq(|rules|, i requires 0 <= i < |rules| => Staging.RecordOf(rules[i]))
  {
  }

  // ---------------------------------------------------------------------
  // apply_rules_from_env_file
  // ---------------------------------------------------------------------

  /** Why the loop skipped an item. */
  datatype Skip = MissingField | RuleNotFound | NoValidationRow | BackupFailed

  /** What the loop did with one item: backed up `file` and wrote `target`,
      or skipped the item. */
  datatype Step = Wrote(target: Target, file: string) | Skipped(reason: Skip)

  datatype ItemApplied = ItemApplied(world: World, step: Step)

  /** The backup directory `dir` with `name` holding `doc`. */
  function SaveBackup(w: World, dir: (string, string), name: string, doc: Value): World
    requires dir in w.backups
  {
    w.(backups := w.backups[dir := w.backups[dir][name := Readable(doc)]])
  }

  /** The destination and backup name apply chooses for an item whose rule
      row exists, when it finds one. */
  function Destination(w: World, item: Item): Option<Dest>
    requires (item.ruleId, item.orgId) in w.rules
  {
    if w.rules[(item.ruleId, item.orgId)].status == Some(ValidationStatus) then
      var latest := LatestValidation(w.validations, item.ruleId);
      if latest.None? then None else Some(ValidationDest(item.ruleId, item.orgId, latest.value.id))
    else Some(RuleDest(item.ruleId, item.orgId))
  }

  /** The content apply backs up for a destination it chose. */
  function PriorContent(w: World, item: Item): Value
    requires (item.ruleId, item.orgId) in w.rules && Destination(w, item).Some?
  {
    if w.rules[(item.ruleId, item.orgId)].status == Some(ValidationStatus) then
      LatestValidation(w.validations, item.ruleId).value.content
    else w.rules[(item.ruleId, item.orgId)].content
  }

  /** One iteration of the loop. `backupOk(name)` says whether writing the
      backup file `name` succeeds. */
  function ApplyItem(w: World, dir: (string, string), item: Value,
                     decode: string -> Option<Value>, backupOk: string -> bool): (r: ItemApplied)
    requires dir in w.backups
    ensures dir in r.world.backups
    ensures r.step.Skipped? ==> r.world == w
    ensures r.step.Wrote? ==> ItemOf(item).Some? && backupOk(r.step.file) && r.step.file in r.world.backups[dir]
  {
    var fields := ItemOf(item);
    if fields.None? then ItemApplied(w, Skipped(MissingField))
    else
      var it := fields.value;
      if (it.ruleId, it.orgId) !in w.rules then ItemApplied(w, Skipped(RuleNotFound))
      else
        var dest := Destination(w, it);
        if dest.None? then ItemApplied(w, Skipped(NoValidationRow))
        else
          var name := BackupName(dest.value);
          if !backupOk(name) then ItemApplied(w, Skipped(BackupFailed))
          else
            var saved := SaveBackup(w, dir, name, BackupDoc(PriorContent(w, it), decode));
            WriteEffect(saved, TargetOf(dest.value), it.content);
            ItemApplied(Write(saved, TargetOf(dest.value), it.content), Wrote(TargetOf(dest.value), name))
  }

  datatype Applied = Applied(world: World, steps: seq<Step>)

  /** The loop over all items. */
  function ApplyAll(w: World, dir: (string, string), items: seq<Value>,
                    decode: string -> Option<Value>, backupOk: string -> bool): (r: Applied)
    requires dir in w.backups
    ensures dir in r.world.backups && |r.steps| == |items|
    decreases |items|
  {
    if items == [] then Applied(w, [])
    else
      var n := |items| - 1;
      var prev := ApplyAll(w, dir, items[..n], decode, backupOk);
      var next := ApplyItem(prev.world, dir, items[n], decode, backupOk);
      assert dir in next.world.backups by {
        if next.step.Wrote? {
          WriteEffect(SaveBackup(prev.world, dir, next.step.file, Null), next.step.target, Null);
        }
      }
      Applied(next.world, prev.steps + [next.step])
  }

  /** The number of steps that wrote (`updated_count`). */
  function WriteCount(steps: seq<Step>): nat
    decreases |steps|
  {
    if steps == [] then 0
    else WriteCount(steps[..|steps| - 1]) + (if steps[|steps| - 1].Wrote? then 1 else 0)
  }

  /** The outcome of a whole run: the new state, and the count or the
      exception that ended the run. */
  datatype Outcome = Outcome(world: World, count: Result<nat>)

  /** `ensure_backup_dir`: the directory is created if missing; existing
      files in it are kept. */
  function EnsureDir(w: World, dir: (string, string)): (r: World)
    ensures dir in r.backups
    ensures dir in w.backups ==> r == w
    ensures dir !in w.backups ==> r.backups[dir] == map[]
    ensures r.rules == w.rules && r.validations == w.validations
    ensures r.backups.Keys == w.backups.Keys + {dir}
    ensures forall k :: k in w.backups ==> r.backups[k] == w.backups[k]
  {
    if dir in w.backups then w else w.(backups := w.backups[dir := map[]])
  }

  /** `apply_rules_from_env_file(env)` at clock time `timestamp`. `envFile`
      is the decoded env file, None when it is missing or not JSON. */
  function ApplyRun(w: World, env: string, timestamp: string, envFile: Option<Value>,
                    decode: string -> Option<Value>, backupOk: string -> bool): (o: Outcome)
    ensures envFile.None? ==> o == Outcome(w, Raised)
    ensures envFile.Some? ==> (env, timestamp) in o.world.backups
    ensures o.count.Ok? ==> envFile.Some? && RulesList(envFile.value).Ok?
                            && o.count.value <= |RulesList(envFile.value).value|
  {
    if envFile.None? then Outcome(w, Raised)
    else
      var dir := (env, timestamp);
      var w1 := EnsureDir(w, dir);
      match RulesList(envFile.value)
      case Raised => Outcome(w1, Raised)
      case Ok(items) =>
        var run := ApplyAll(w1, dir, items, decode, backupOk);
        ApplyAllKeepsBackups(w1, dir, items, decode, backupOk);
        Outcome(run.world, Ok(WriteCount(run.steps)))
  }

  // ---------------------------------------------------------------------
  // Properties of one item
  // ---------------------------------------------------------------------

  /** A skipped item changes nothing; each reason names the check that
      failed, in the order the loop makes them. */
  lemma ApplyItemSkipped(w: World, dir: (string, string), item: Value,
                         decode: string -> Option<Value>, backupOk: string -> bool)
    requires dir in w.backups
    ensures var r := ApplyItem(w, dir, item, decode, backupOk);
            r.step.Skipped? ==> r.world == w
    ensures var r := ApplyItem(w, dir, item, decode, backupOk);
            r.step == Skipped(MissingField) <==> ItemOf(item).None?
    ensures var r := ApplyItem(w, dir, item, decode, backupOk);
            r.step == Skipped(RuleNotFound) <==>
              ItemOf(item).Some? && (ItemOf(item).value.ruleId, ItemOf(item).value.orgId) !in w.rules
    ensures var r := ApplyItem(w, dir, item, decode, backupOk);
            r.step == Skipped(NoValidationRow) <==>
              && ItemOf(item).Some?
              && (ItemOf(item).value.ruleId, ItemOf(item).value.orgId) in w.rules
              && w.rules[(ItemOf(item).value.ruleId, ItemOf(item).value.orgId)].status == Some(ValidationStatus)
              && forall x :: x in w.validations ==> x.ruleId != ItemOf(item).value.ruleId
    ensures var r := ApplyItem(w, dir, item, decode, backupOk);
            r.step == Skipped(BackupFailed) <==>
              && ItemOf(item).Some?
              && (ItemOf(item).value.ruleId, ItemOf(item).value.orgId) in w.rules
              && Destination(w, ItemOf(item).value).Some?
              && !backupOk(BackupName(Destination(w, ItemOf(item).value).value))
    ensures var r := ApplyItem(w, dir, item, decode, backupOk);
            r.step.Wrote? <==>
              && ItemOf(item).Some?
              && (ItemOf(item).value.ruleId, ItemOf(item).value.orgId) in w.rules
              && Destination(w, ItemOf(item).value).Some?
              && backupOk(BackupName(Destination(w, ItemOf(item).value).value))
  {
    var fields := ItemOf(item);
    if fields.Some? && (fields.value.ruleId, fields.value.orgId) in w.rules
       && w.rules[(fields.value.ruleId, fields.value.orgId)].status == Some(ValidationStatus)
       && LatestValidation(w.validations, fields.value.ruleId).Some? {
      assert LatestValidation(w.validations, fields.value.ruleId).value in w.validations;
    }
  }

  /** A written item: the backup file named after the destination now holds
      the destination's content from before the write, and then the
      destination, and nothing else, gets the item's content. A rule in
      VALIDATION status has its latest validation record written, any other
      rule its own row. */
  lemma ApplyItemWrote(w: World, dir: (string, string), item: Value,
                       decode: string -> Option<Value>, backupOk: string -> bool)
    requires dir in w.backups
    requires ApplyItem(w, dir, item, decode, backupOk).step.Wrote?
    ensures var r := ApplyItem(w, dir, item, decode, backupOk);
            var it := ItemOf(item).value;
            && (it.ruleId, it.orgId) in w.rules
            && Destination(w, it).Some?
            && r.step.file == BackupName(Destination(w, it).value)
            && r.step.target == TargetOf(Destination(w, it).value)
            && backupOk(r.step.file)
            && r.world.backups == w.backups[dir := w.backups[dir][r.step.file := Readable(BackupDoc(PriorContent(w, it), decode))]]
            && ContentAt(r.world, r.step.target) == Some(it.content)
            && (forall u :: u != r.step.target ==> ContentAt(r.world, u) == ContentAt(w, u))
            && SameShape(r.world, w)
    ensures var it := ItemOf(item).value;
            var status := w.rules[(it.ruleId, it.orgId)].status;
            && (status == Some(ValidationStatus) ==>
                  Destination(w, it).value
                  == ValidationDest(it.ruleId, it.orgId, LatestValidation(w.validations, it.ruleId).value.id))
            && (status != Some(ValidationStatus) ==> Destination(w, it).value == RuleDest(it.ruleId, it.orgId))
  {
    var it := ItemOf(item).value;
    var dest := Destination(w, it).value;
    var name := BackupName(dest);
    var saved := SaveBackup(w, dir, name, BackupDoc(PriorContent(w, it), decode));
    WriteEffect(saved, TargetOf(dest), it.content);
    assert ContentAt(saved, TargetOf(dest)).Some? by {
      if dest.ValidationDest? {
        var latest := LatestValidation(w.validations, it.ruleId).value;
        assert latest in w.validations;
        ValidationContentSome(w.validations, latest);
      }
    }
  }

  /** A row with id `x.id` exists, so the id selects some content. */
  lemma {:induction false} ValidationContentSome(rows: seq<ValidationRow>, x: ValidationRow)
    requires x in rows
    ensures ValidationContent(rows, x.id).Some?
    decreases |rows|
  {
    if rows[0].id != x.id {
      assert x in rows[1..];
      ValidationContentSome(rows[1..], x);
    }
  }

  /** The prior content apply backs up is the destination's content. */
  lemma PriorContentIsContent(w: World, it: Item)
    requires (it.ruleId, it.orgId) in w.rules && Destination(w, it).Some?
    requires UniqueValidationIds(w.validations)
    ensures ContentAt(w, TargetOf(Destination(w, it).value)) == Some(PriorContent(w, it))
  {
    if Destination(w, it).value.ValidationDest? {
      ValidationContentOfRow(w.validations, LatestValidation(w.validations, it.ruleId).value);
    }
  }

  // ---------------------------------------------------------------------
  // Properties of the whole loop
  // ---------------------------------------------------------------------

  lemma ApplyAllSnoc(w: World, dir: (string, string), items: seq<Value>, item: Value,
                     decode: string -> Option<Value>, backupOk: string -> bool)
    requires dir in w.backups
    ensures var prev := ApplyAll(w, dir, items, decode, backupOk);
            var next := ApplyItem(prev.world, dir, item, decode, backupOk);
            ApplyAll(w, dir, items + [item], decode, backupOk) == Applied(next.world, prev.steps + [next.step])
  {
    assert (items + [item])[..|items|] == items;
  }

  lemma WriteCountSnoc(steps: seq<Step>, s: Step)
    ensures WriteCount(steps + [s]) == WriteCount(steps) + (if s.Wrote? then 1 else 0)
  {
    assert (steps + [s])[..|steps|] == steps;
  }

  /** Some step wrote `t` after backing it up in `file`, and that file is
      still in the backup directory. */
  predicate BackedUpWrite(steps: seq<Step>, backups: BackupDir, t: Target) {
    exists i :: 0 <= i < |steps| && steps[i].Wrote? && steps[i].target == t && steps[i].file in backups
  }

  /** One item, summarised: the directory stays and keeps its files, a
      written item's backup file is in it, only the destination it wrote can
      change, and only contents change. */
  lemma ApplyItemEffect(w: World, dir: (string, string), item: Value,
                        decode: string -> Option<Value>, backupOk: string -> bool)
    requires dir in w.backups
    ensures var r := ApplyItem(w, dir, item, decode, backupOk);
            && dir in r.world.backups
            && w.backups[dir].Keys <= r.world.backups[dir].Keys
            && (r.step.Wrote? ==> r.step.file in r.world.backups[dir])
            && (forall t :: ContentAt(r.world, t) != ContentAt(w, t) ==> r.step.Wrote? && r.step.target == t)
            && SameShape(r.world, w)
  {
    ApplyItemSkipped(w, dir, item, decode, backupOk);
    if ApplyItem(w, dir, item, decode, backupOk).step.Wrote? {
      ApplyItemWrote(w, dir, item, decode, backupOk);
    }
  }

  /** Backup files are never removed, every write's backup file is in the
      directory, only contents change, and the writes never outnumber the
      items. */
  lemma {:induction false} ApplyAllKeepsBackups(w: World, dir: (string, string), items: seq<Value>,
                                                decode: string -> Option<Value>, backupOk: string -> bool)
    requires dir in w.backups
    ensures var r := ApplyAll(w, dir, items, decode, backupOk);
            forall i :: 0 <= i < |r.steps| && r.steps[i].Wrote? ==> r.steps[i].file in r.world.backups[dir]
    ensures var r := ApplyAll(w, dir, items, decode, backupOk);
            w.backups[dir].Keys <= r.world.backups[dir].Keys && SameShape(r.world, w)
    ensures WriteCount(ApplyAll(w, dir, items, decode, backupOk).steps) <= |items|
    decreases |items|
  {
    if items != [] {
      var n := |items| - 1;
      var xs := items[..n];
      assert items == xs + [items[n]];
      ApplyAllSnoc(w, dir, xs, items[n], decode, backupOk);
      ApplyAllKeepsBackups(w, dir, xs, decode, backupOk);
      var prev := ApplyAll(w, dir, xs, decode, backupOk);
      var next := ApplyItem(prev.world, dir, items[n], decode, backupOk);
      var steps := prev.steps + [next.step];
      WriteCountSnoc(prev.steps, next.step);
      ApplyItemEffect(prev.world, dir, items[n], decode, backupOk);
      SameShapeTransitive(next.world, prev.world, w);
      forall i | 0 <= i < |steps| && steps[i].Wrote?
        ensures steps[i].file in next.world.backups[dir]
      {
        if i < n {
          assert steps[i] == prev.steps[i];
        }
      }
    }
  }

  /** No destination changes unless a step wrote it after saving its backup
      file, which is still in the directory at the end. */
  lemma {:induction false} ApplyAllBacksUp(w: World, dir: (string, string), items: seq<Value>,
                                           decode: string -> Option<Value>, backupOk: string -> bool)
    requires dir in w.backups
    ensures var r := ApplyAll(w, dir, items, decode, backupOk);
            forall t :: ContentAt(r.world, t) != ContentAt(w, t) ==> BackedUpWrite(r.steps, r.world.backups[dir], t)
    decreases |items|
  {
    if items != [] {
      var n := |items| - 1;
      var xs := items[..n];
      assert items == xs + [items[n]];
      ApplyAllSnoc(w, dir, xs, items[n], decode, backupOk);
      ApplyAllBacksUp(w, dir, xs, decode, backupOk);
      var prev := ApplyAll(w, dir, xs, decode, backupOk);
      var next := ApplyItem(prev.world, dir, items[n], decode, backupOk);
      var steps := prev.steps + [next.step];
      ApplyItemEffect(prev.world, dir, items[n], decode, backupOk);
      var d := next.world.backups[dir];
      forall t | ContentAt(next.world, t) != ContentAt(w, t)
        ensures BackedUpWrite(steps, d, t)
      {
        if ContentAt(prev.world, t) != ContentAt(w, t) {
          var i :| 0 <= i < |prev.steps| && prev.steps[i].Wrote? && prev.steps[i].target == t
                   && prev.steps[i].file in prev.world.backups[dir];
          assert steps[i] == prev.steps[i];
        } else {
          assert steps[n] == next.step;
        }
      }
    }
  }

  /** `apply` reports the number of writes, changes no destination it did
      not first back up in the run's directory, and changes only contents. */
  lemma ApplyRunBacksUp(w: World, env: string, timestamp: string, envFile: Option<Value>,
                        decode: string -> Option<Value>, backupOk: string -> bool)
    ensures SameShape(ApplyRun(w, env, timestamp, envFile, decode, backupOk).world, w)
    ensures var o := ApplyRun(w, env, timestamp, envFile, decode, backupOk);
            o.count.Raised? ==> forall t :: ContentAt(o.world, t) == ContentAt(w, t)
    ensures var o := ApplyRun(w, env, timestamp, envFile, decode, backupOk);
            o.count.Ok? ==>
              && envFile.Some? && RulesList(envFile.value).Ok?
              && var run := ApplyAll(EnsureDir(w, (env, timestamp)), (env, timestamp),
                                     RulesList(envFile.value).value, decode, backupOk);
                 && o.count.value == WriteCount(run.steps)
                 && forall t :: ContentAt(o.world, t) != ContentAt(w, t) ==>
                      BackedUpWrite(run.steps, o.world.backups[(env, timestamp)], t)
  {
    var dir := (env, timestamp);
    var w1 := EnsureDir(w, dir);
    assert w1.rules == w.rules && w1.validations == w.validations;
    assert forall t :: ContentAt(w1, t) == ContentAt(w, t);
    if envFile.Some? && RulesList(envFile.value).Ok? {
      var items := RulesList(envFile.value).value;
      ApplyAllBacksUp(w1, dir, items, decode, backupOk);
      ApplyAllKeepsBackups(w1, dir, items, decode, backupOk);
      var run := ApplyAll(w1, dir, items, decode, backupOk);
      assert ApplyRun(w, env, timestamp, envFile, decode, backupOk) == Outcome(run.world, Ok(WriteCount(run.steps)));
      SameShapeTransitive(run.world, w1, w);
    }
  }

  // ---------------------------------------------------------------------
  // restore_from_backup
  // ---------------------------------------------------------------------

  /** The names in a directory that end with ".json". */
  function JsonNames(dir: BackupDir): set<string> {
    set f | f in dir && EndsWith(f, ".json")
  }

  datatype Restored = Restored(world: World, count: nat)

  /** The destination a file restores, if its name parses. */
  function FileTarget(f: string): Option<Target> {
    var parsed := ParseBackupName(f);
    if parsed.None? then None else Some(TargetOf(parsed.value))
  }

  /** The file is restored: it is there, it reads as JSON, and its name
      parses. */
  predicate Restores(target: string -> Option<Target>, dir: BackupDir, f: string) {
    f in dir && dir[f].Readable? && target(f).Some?
  }

  /** One iteration of the restore loop: a name that does not parse is
      ignored, a file that cannot be read is skipped, any other file's
      document is written to the destination its name gives and counted. */
  function RestoreOne(target: string -> Option<Target>, r: Restored, dir: BackupDir, f: string): Restored {
    if Restores(target, dir, f) then Restored(Write(r.world, target(f).value, dir[f].doc), r.count + 1) else r
  }

  /** The restore loop over `files` in order, with `target` the destination
      a file name designates (`FileTarget` in `restore_from_backup`). */
  function RestoreFiles(target: string -> Option<Target>, w: World, dir: BackupDir, files: seq<string>): Restored
    decreases |files|
  {
    if files == [] then Restored(w, 0)
    else RestoreOne(target, RestoreFiles(target, w, dir, files[..|files| - 1]), dir, files[|files| - 1])
  }

  /** `restore_from_backup(env, timestamp)`: no timestamp (None or empty)
      raises ValueError, a missing directory raises FileNotFoundError; else
      the ".json" files are restored in sorted order. */
  ghost function RestoreRun(w: World, env: string, timestamp: Option<string>): (o: Outcome)
    ensures timestamp.None? || timestamp == Some("") ==> o == Outcome(w, Raised)
    ensures timestamp.Some? && timestamp.value != "" && (env, timestamp.value) !in w.backups ==>
              o == Outcome(w, Raised)
    ensures o.world.backups == w.backups && SameShape(o.world, w)
    ensures o.count.Ok? ==> timestamp.Some? && (env, timestamp.value) in w.backups
                            && o.count.value <= |JsonNames(w.backups[(env, timestamp.value)])|
  {
    if timestamp.None? || timestamp.value == "" then Outcome(w, Raised)
    else if (env, timestamp.value) !in w.backups then Outcome(w, Raised)
    else
      var dir := w.backups[(env, timestamp.value)];
      var r := RestoreFiles(FileTarget, w, dir, SortedNames(JsonNames(dir)));
      RestoreFilesKeepsShape(FileTarget, w, dir, SortedNames(JsonNames(dir)));
      Outcome(r.world, Ok(r.count))
  }

  lemma RestoreFilesSnoc(target: string -> Option<Target>, w: World, dir: BackupDir, files: seq<string>, f: string)
    ensures RestoreFiles(target, w, dir, files + [f]) == RestoreOne(target, RestoreFiles(target, w, dir, files), dir, f)
  {
    assert (files + [f])[..|files|] == files;
  }
  /** The restore loop changes only contents, never the backups, and counts
      at most one per file. */
  lemma {:induction false} RestoreFilesKeepsShape(target: string -> Option<Target>, w: World, dir: BackupDir,
                                                  files: seq<string>)
    ensures var r := RestoreFiles(target, w, dir, files);
            r.world.backups == w.backups && SameShape(r.world, w) && r.count <= |files|
    decreases |files|
  {
    if files != [] {
      var n := |files| - 1;
      var prev := RestoreFiles(target, w, dir, files[..n]);
      RestoreFilesKeepsShape(target, w, dir, files[..n]);
      RestoreOneEffect(target, prev, dir, files[n], RuleTarget(0, 0));
      SameShapeTransitive(RestoreOne(target, prev, dir, files[n]).world, prev.world, w);
    }
  }


  /** One restored file sets its destination, if that exists, to the file's
      document; it changes no other destination, no key and no backup. */
  lemma RestoreOneEffect(target: string -> Option<Target>, r: Restored, dir: BackupDir, f: string, t: Target)
    ensures var next := RestoreOne(target, r, dir, f);
            ContentAt(next.world, t)
            == if Restores(target, dir, f) && target(f).value == t && ContentAt(r.world, t).Some?
               then Some(dir[f].doc) else ContentAt(r.world, t)
    ensures SameShape(RestoreOne(target, r, dir, f).world, r.world)
    ensures RestoreOne(target, r, dir, f).world.backups == r.world.backups
    ensures RestoreOne(target, r, dir, f).count == r.count + (if Restores(target, dir, f) then 1 else 0)
  {
    if Restores(target, dir, f) {
      WriteEffect(r.world, target(f).value, dir[f].doc);
    }
  }

  /** Restore changes nothing but contents, counts one per file it writes,
      and leaves alone a destination that no restored file names. */
  lemma {:induction false} RestoreFilesEffect(target: string -> Option<Target>, w: World, dir: BackupDir, files: seq<string>, t: Target)
    requires forall i :: 0 <= i < |files| && Restores(target, dir, files[i]) ==> target(files[i]).value != t
    ensures ContentAt(RestoreFiles(target, w, dir, files).world, t) == ContentAt(w, t)
    ensures SameShape(RestoreFiles(target, w, dir, files).world, w)
    ensures RestoreFiles(target, w, dir, files).world.backups == w.backups
    ensures RestoreFiles(target, w, dir, files).count <= |files|
    decreases |files|
  {
    if files != [] {
      var n := |files| - 1;
      assert forall i :: 0 <= i < n ==> files[..n][i] == files[i];
      RestoreFilesEffect(target, w, dir, files[..n], t);
      RestoreOneEffect(target, RestoreFiles(target, w, dir, files[..n]), dir, files[n], t);
      SameShapeTransitive(RestoreFiles(target, w, dir, files).world, RestoreFiles(target, w, dir, files[..n]).world, w);
    }
  }

  /** When no other restored file names the same destination, the
      destination a restored file names, if it exists, ends up holding that
      file's document. */
  lemma {:induction false} RestoreFilesWrites(target: string -> Option<Target>, w: World, dir: BackupDir, files: seq<string>, k: nat)
    requires k < |files| && Restores(target, dir, files[k])
    requires ContentAt(w, target(files[k]).value).Some?
    requires forall i :: 0 <= i < |files| && i != k && Restores(target, dir, files[i]) ==>
               target(files[i]) != target(files[k])
    ensures ContentAt(RestoreFiles(target, w, dir, files).world, target(files[k]).value) == Some(dir[files[k]].doc)
    decreases |files|
  {
    var n := |files| - 1;
    var t := target(files[k]).value;
    var prev := RestoreFiles(target, w, dir, files[..n]);
    assert forall i :: 0 <= i < n ==> files[..n][i] == files[i];
    if k == n {
      RestoreFilesEffect(target, w, dir, files[..n], t);
    } else {
      RestoreFilesWrites(target, w, dir, files[..n], k);
    }
    RestoreOneEffect(target, prev, dir, files[n], t);
  }
}
