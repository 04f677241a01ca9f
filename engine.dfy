/** The database and the backup directories as one mutable store, with
    `apply_rules_from_env_file` and `restore_from_backup` as methods that
    update it row by row and file by file. Each method is proved to leave
    the store in the state, and to return the count, that the functions of
    module Database give for the store it started from. */
module Engine {
  import opened Wrappers
  import opened PyValues
  import opened BackupNames
  import opened Sorting
  import opened Database

  class Store {
    /** The `rule` table, keyed by (id, org_id). */
    var rules: map<(int, int), Rule>
    /** The `rule_validation` table. */
    var validations: seq<ValidationRow>
    /** The backup directories, keyed by (env, timestamp). */
    var backups: map<(string, string), BackupDir>

    /** The store as a value. */
    function State(): World
      reads this
    {
      World(rules, validations, backups)
    }

    constructor (w: World)
      ensures State() == w
    {
      rules := w.rules;
      validations := w.validations;
      backups := w.backups;
    }

    /** One UPDATE of a destination's content. */
    method Update(t: Target, c: Value)
      modifies this
      ensures State() == Write(old(State()), t, c)
    {
      match t
      case RuleTarget(r, o) =>
        if (r, o) in rules {
          rules := rules[(r, o) := rules[(r, o)].(content := c)];
        }
      case ValidationTarget(v) =>
        validations := SetValidation(validations, v, c);
    }

    /** One iteration of the apply loop: look the rule up, choose the
        destination, write its backup file, then overwrite it. */
    method ApplyOne(dir: (string, string), item: Value,
                    decode: string -> Option<Value>, backupOk: string -> bool) returns (step: Step)
      requires dir in backups
      modifies this
      ensures ApplyItem(old(State()), dir, item, decode, backupOk) == ItemApplied(State(), step)
    {
      var fields := ItemOf(item);
      if fields.None? {
        return Skipped(MissingField);
      }
      var it := fields.value;
      var key := (it.ruleId, it.orgId);
      if key !in rules {
        return Skipped(RuleNotFound);
      }
      var dest: Dest;
      var prior: Value;
      if rules[key].status == Some(ValidationStatus) {
        var latest := LatestValidation(validations, it.ruleId);
        if latest.None? {
          return Skipped(NoValidationRow);
        }
        dest := ValidationDest(it.ruleId, it.orgId, latest.value.id);
        prior := latest.value.content;
      } else {
        dest := RuleDest(it.ruleId, it.orgId);
        prior := rules[key].content;
      }
      var name := BackupName(dest);
      if !backupOk(name) {
        return Skipped(BackupFailed);
      }
      backups := backups[dir := backups[dir][name := Readable(BackupDoc(prior, decode))]];
      Update(TargetOf(dest), it.content);
      step := Wrote(TargetOf(dest), name);
    }

    /** `apply_rules_from_env_file(env)` at clock time `timestamp`, with
        `envFile` the decoded env file (None when missing or not JSON). */
    method Apply(env: string, timestamp: string, envFile: Option<Value>,
                 decode: string -> Option<Value>, backupOk: string -> bool) returns (count: Result<nat>)
      modifies this
      ensures ApplyRun(old(State()), env, timestamp, envFile, decode, backupOk) == Outcome(State(), count)
    {
      if envFile.None? {
        return Raised;
      }
      var dir := (env, timestamp);
      if dir !in backups {
        backups := backups[dir := map[]];
      }
      var listed := RulesList(envFile.value);
      if listed.Raised? {
        return Raised;
      }
      var items := listed.value;
      ghost var start := State();
      ghost var steps: seq<Step> := [];
      var updated := 0;
      for i := 0 to |items|
        invariant dir in backups
        invariant ApplyAll(start, dir, items[..i], decode, backupOk) == Applied(State(), steps)
        invariant updated == WriteCount(steps)
      {
        ApplyAllSnoc(start, dir, items[..i], items[i], decode, backupOk);
        assert items[..i + 1] == items[..i] + [items[i]];
        var step := ApplyOne(dir, items[i], decode, backupOk);
        WriteCountSnoc(steps, step);
        if step.Wrote? {
          updated := updated + 1;
        }
        steps := steps + [step];
      }
      assert items[..|items|] == items;
      count := Ok(updated);
    }

    /** The loop of `restore_from_backup` over `files`, with `target` the
        destination a file name designates. */
    method RestoreAll(target: string -> Option<Target>, dir: BackupDir, files: seq<string>) returns (restored: nat)
      modifies this
      ensures RestoreFiles(target, old(State()), dir, files) == Restored(State(), restored)
    {
      ghost var start := State();
      restored := 0;
      for i := 0 to |files|
        invariant RestoreFiles(target, start, dir, files[..i]) == Restored(State(), restored)
      {
        RestoreFilesSnoc(target, start, dir, files[..i], files[i]);
        assert files[..i + 1] == files[..i] + [files[i]];
        var f := files[i];
        var t := target(f);
        if t.Some? && f in dir && dir[f].Readable? {
          Update(t.value, dir[f].doc);
          restored := restored + 1;
        }
      }
      assert files[..|files|] == files;
    }

    /** `restore_from_backup(env, timestamp)`: every ".json" file of the
        directory, in sorted order, whose name parses and which reads as
        JSON is written back to the destination its name gives. */
    method Restore(env: string, timestamp: Option<string>) returns (count: Result<nat>)
      modifies this
      ensures RestoreRun(old(State()), env, timestamp) == Outcome(State(), count)
    {
      if timestamp.None? || timestamp.value == "" {
        return Raised;
      }
      var key := (env, timestamp.value);
      if key !in backups {
        return Raised;
      }
      var dir := backups[key];
      var files := SortNames(JsonNames(dir));
      var restored := RestoreAll(FileTarget, dir, files);
      count := Ok(restored);
    }
  }
}
