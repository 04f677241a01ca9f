/** Restoring the backups an apply run wrote puts every destination it
    overwrote back: after `apply_rules_from_env_file` and then
    `restore_from_backup` on the same timestamp, each content is what it was
    before, up to the way a string content is backed up (decoded as JSON). */
module RoundTrip {
  import opened Wrappers
  import opened PyValues
  import opened BackupNames
  import opened Sorting
  import opened Database
  import Staging

  /** The database the round trip starts from: validation ids are unique
      (the primary key), and rule keys and validation ids are non-negative
      (serial ids), so every backup name parses back. */
  predicate WellFormed(w: World) {
    && UniqueValidationIds(w.validations)
    && (forall k :: k in w.rules ==> k.0 >= 0 && k.1 >= 0)
    && (forall i :: 0 <= i < |w.validations| ==> w.validations[i].id >= 0)
  }

  /** No two items that the loop reads name the same rule id. */
  predicate DistinctItems(items: seq<Value>) {
    forall i, j :: 0 <= i < j < |items| && ItemOf(items[i]).Some? && ItemOf(items[j]).Some? ==>
      ItemOf(items[i]).value.ruleId != ItemOf(items[j]).value.ruleId
  }

  /** `target` reads back the destination of every backup name. */
  ghost predicate NamesParse(target: string -> Option<Target>) {
    forall d :: NonNegative(d) ==> target(BackupName(d)) == Some(TargetOf(d))
  }

  lemma FileTargetParses()
    ensures NamesParse(FileTarget)
  {
    forall d | NonNegative(d)
      ensures FileTarget(BackupName(d)) == Some(TargetOf(d))
    {
      ParseBackupNameOfName(d);
    }
  }

  lemma BackupNameIsJson(d: Dest)
    ensures EndsWith(BackupName(d), ".json")
  {
    var stem := match d
      case RuleDest(r, o) => "rule_" + IntToString(r) + "_org_" + IntToString(o) + "_original"
      case ValidationDest(r, o, v) =>
        "rule_" + IntToString(r) + "_org_" + IntToString(o) + "_validation_" + IntToString(v) + "_original";
    assert BackupName(d) == stem + ".json";
  }

  // ---------------------------------------------------------------------
  // Destinations are determined by the shape of the database
  // ---------------------------------------------------------------------

  /** Destination `t` is the rule `r` or one of its validation records. */
  predicate Belongs(w0: World, t: Target, r: int) {
    match t
    case RuleTarget(ruleId, _) => ruleId == r
    case ValidationTarget(v) =>
      exists i :: 0 <= i < |w0.validations| && w0.validations[i].id == v && w0.validations[i].ruleId == r
  }

  lemma BelongsUnique(w0: World, t: Target, r1: int, r2: int)
    requires UniqueValidationIds(w0.validations)
    requires Belongs(w0, t, r1) && Belongs(w0, t, r2)
    ensures r1 == r2
  {
  }

  predicate SameRows(a: seq<ValidationRow>, b: seq<ValidationRow>) {
    |a| == |b| &&
    forall i :: 0 <= i < |a| ==> a[i].id == b[i].id && a[i].ruleId == b[i].ruleId && a[i].createdAt == b[i].createdAt
  }

  /** The ordering reads no content, so the latest validation record is the
      same row however the contents differ. */
  lemma {:induction false} LatestSameRows(a: seq<ValidationRow>, b: seq<ValidationRow>, r: int)
    requires SameRows(a, b)
    ensures LatestValidation(a, r).Some? == LatestValidation(b, r).Some?
    ensures LatestValidation(a, r).Some? ==>
              && LatestValidation(a, r).value.id == LatestValidation(b, r).value.id
              && LatestValidation(a, r).value.createdAt == LatestValidation(b, r).value.createdAt
    decreases |a|
  {
    if a != [] {
      var n := |a| - 1;
      assert SameRows(a[..n], b[..n]);
      LatestSameRows(a[..n], b[..n], r);
    }
  }

  lemma {:induction false} ValidationContentSomeIff(rows: seq<ValidationRow>, v: int)
    ensures ValidationContent(rows, v).Some? <==> exists i :: 0 <= i < |rows| && rows[i].id == v
    decreases |rows|
  {
    if rows != [] {
      ValidationContentSomeIff(rows[1..], v);
      if exists i :: 0 <= i < |rows| && rows[i].id == v {
        var i :| 0 <= i < |rows| && rows[i].id == v;
        if i > 0 {
          assert rows[1..][i - 1].id == v;
        }
      }
    }
  }

  /** A world of the same shape as a well-formed one has unique validation
      ids and the same existing destinations. */
  lemma SameShapeFacts(a: World, w0: World)
    requires WellFormed(w0) && SameShape(a, w0)
    ensures UniqueValidationIds(a.validations)
    ensures forall t :: ContentAt(a, t).Some? == ContentAt(w0, t).Some?
  {
    forall t ensures ContentAt(a, t).Some? == ContentAt(w0, t).Some? {
      if t.ValidationTarget? {
        ValidationContentSomeIff(a.validations, t.validationId);
        ValidationContentSomeIff(w0.validations, t.validationId);
      }
    }
  }

  /** The destination apply chooses for an item, in a world of the starting
      shape, has a parsable backup name and belongs to the item's rule. */
  lemma DestinationFacts(w0: World, a: World, it: Item)
    requires WellFormed(w0) && SameShape(a, w0)
    requires (it.ruleId, it.orgId) in a.rules && Destination(a, it).Some?
    ensures NonNegative(Destination(a, it).value)
    ensures Belongs(w0, TargetOf(Destination(a, it).value), it.ruleId)
  {
    assert (it.ruleId, it.orgId) in w0.rules;
    var d := Destination(a, it).value;
    if d.ValidationDest? {
      var latest := LatestValidation(a.validations, it.ruleId).value;
      var i :| 0 <= i < |a.validations| && a.validations[i] == latest;
      assert w0.validations[i].id == d.validationId && w0.validations[i].ruleId == it.ruleId;
    }
  }

  // ---------------------------------------------------------------------
  // The state of the backup directory during the apply loop
  // ---------------------------------------------------------------------

  /** A backup file as the round trip needs it: its name parses to an
      existing destination, it is a ".json" name, and it holds the backup
      document of that destination's starting content. */
  predicate FileOk(w0: World, d: BackupDir, f: string, decode: string -> Option<Value>,
                   target: string -> Option<Target>)
  {
    && f in d && target(f).Some? && EndsWith(f, ".json")
    && ContentAt(w0, target(f).value).Some?
    && d[f] == Readable(BackupDoc(ContentAt(w0, target(f).value).value, decode))
  }

  /** Every file is good, and no two files restore the same destination. */
  ghost predicate FilesGood(w0: World, d: BackupDir, decode: string -> Option<Value>,
                            target: string -> Option<Target>)
  {
    && (forall f :: f in d ==> FileOk(w0, d, f, decode, target))
    && (forall f, g :: f in d && g in d && f != g ==> target(f) != target(g))
  }

  /** Every destination whose content changed has a file. */
  ghost predicate ChangesFiled(w0: World, a: World, d: BackupDir, target: string -> Option<Target>) {
    forall t :: ContentAt(a, t) != ContentAt(w0, t) ==> exists f :: f in d && target(f) == Some(t)
  }

  /** Every write's file is in the directory and restores what it wrote. */
  ghost predicate StepsFiled(steps: seq<Step>, d: BackupDir, target: string -> Option<Target>) {
    forall i :: 0 <= i < |steps| && steps[i].Wrote? ==>
      steps[i].file in d && target(steps[i].file) == Some(steps[i].target)
  }

  /** Every file restores a destination of the rule of some item read. */
  ghost predicate FilesBelong(w0: World, d: BackupDir, items: seq<Value>, target: string -> Option<Target>) {
    forall f :: f in d ==>
      && target(f).Some?
      && exists i :: 0 <= i < |items| && ItemOf(items[i]).Some? &&
                     Belongs(w0, target(f).value, ItemOf(items[i]).value.ruleId)
  }

  /** After the first items: the shape is unchanged, the directory holds one
      good file per write, no two files restore the same destination, every
      changed destination has a file, every write's file restores what it
      wrote, and every file restores a destination of a rule read so far. */
  ghost predicate Inv(w0: World, a: World, dir: (string, string), items: seq<Value>, steps: seq<Step>,
                      decode: string -> Option<Value>, target: string -> Option<Target>)
  {
    && SameShape(a, w0)
    && dir in a.backups
    && |a.backups[dir]| == WriteCount(steps)
    && FilesGood(w0, a.backups[dir], decode, target)
    && ChangesFiled(w0, a, a.backups[dir], target)
    && StepsFiled(steps, a.backups[dir], target)
    && FilesBelong(w0, a.backups[dir], items, target)
  }

  lemma FilesBelongSnoc(w0: World, d: BackupDir, items: seq<Value>, item: Value, target: string -> Option<Target>)
    requires FilesBelong(w0, d, items, target)
    ensures FilesBelong(w0, d, items + [item], target)
  {
    forall f | f in d
      ensures exists i :: 0 <= i < |items + [item]| && ItemOf((items + [item])[i]).Some? &&
                          Belongs(w0, target(f).value, ItemOf((items + [item])[i]).value.ruleId)
    {
      var i :| 0 <= i < |items| && ItemOf(items[i]).Some? && Belongs(w0, target(f).value, ItemOf(items[i]).value.ruleId);
      assert (items + [item])[i] == items[i];
    }
  }

  /** A skipped item keeps the invariant. */
  lemma InvSkip(w0: World, a: World, dir: (string, string), items: seq<Value>, steps: seq<Step>,
                item: Value, s: Step, decode: string -> Option<Value>, target: string -> Option<Target>)
    requires Inv(w0, a, dir, items, steps, decode, target) && s.Skipped?
    ensures Inv(w0, a, dir, items + [item], steps + [s], decode, target)
  {
    WriteCountSnoc(steps, s);
    FilesBelongSnoc(w0, a.backups[dir], items, item, target);
    forall i | 0 <= i < |steps + [s]| && (steps + [s])[i].Wrote?
      ensures (steps + [s])[i].file in a.backups[dir] && target((steps + [s])[i].file) == Some((steps + [s])[i].target)
    {
      assert (steps + [s])[i] == steps[i];
    }
  }

  /** The destination a new item writes has no file yet: every file belongs
      to an earlier item's rule, and the item's rule is a different one. */
  lemma NewTargetIsFresh(w0: World, d: BackupDir, items: seq<Value>, it: Item, t: Target,
                         target: string -> Option<Target>)
    requires UniqueValidationIds(w0.validations)
    requires FilesBelong(w0, d, items, target)
    requires forall i :: 0 <= i < |items| && ItemOf(items[i]).Some? ==> ItemOf(items[i]).value.ruleId != it.ruleId
    requires Belongs(w0, t, it.ruleId)
    ensures forall f :: f in d ==> target(f) != Some(t)
  {
    forall f | f in d
      ensures target(f) != Some(t)
    {
      var i :| 0 <= i < |items| && ItemOf(items[i]).Some? && Belongs(w0, target(f).value, ItemOf(items[i]).value.ruleId);
      if target(f) == Some(t) {
        BelongsUnique(w0, t, it.ruleId, ItemOf(items[i]).value.ruleId);
        assert false;
      }
    }
  }

  /** What a written item adds: the facts about its step gathered in one
      place, in terms of the world before it. */
  lemma WroteFacts(w0: World, a: World, dir: (string, string), items: seq<Value>, steps: seq<Step>,
                   item: Value, decode: string -> Option<Value>, backupOk: string -> bool,
                   target: string -> Option<Target>)
    returns (it: Item, t: Target, prior: Value)
    requires WellFormed(w0) && NamesParse(target)
    requires Inv(w0, a, dir, items, steps, decode, target)
    requires forall i :: 0 <= i < |items| && ItemOf(items[i]).Some? && ItemOf(item).Some? ==>
               ItemOf(items[i]).value.ruleId != ItemOf(item).value.ruleId
    requires ApplyItem(a, dir, item, decode, backupOk).step.Wrote?
    ensures var next := ApplyItem(a, dir, item, decode, backupOk);
            && ItemOf(item) == Some(it)
            && next.step.target == t && target(next.step.file) == Some(t)
            && EndsWith(next.step.file, ".json")
            && Belongs(w0, t, it.ruleId)
            && (forall f :: f in a.backups[dir] ==> target(f) != Some(t))
            && next.step.file !in a.backups[dir]
            && ContentAt(w0, t) == Some(prior)
            && dir in next.world.backups
            && next.world.backups[dir] == a.backups[dir][next.step.file := Readable(BackupDoc(prior, decode))]
            && (forall u :: u != t ==> ContentAt(next.world, u) == ContentAt(a, u))
            && SameShape(next.world, w0)
  {
    var next := ApplyItem(a, dir, item, decode, backupOk);
    ApplyItemWrote(a, dir, item, decode, backupOk);
    it := ItemOf(item).value;
    var dest := Destination(a, it).value;
    t := TargetOf(dest);
    SameShapeFacts(a, w0);
    DestinationFacts(w0, a, it);
    BackupNameIsJson(dest);
    NewTargetIsFresh(w0, a.backups[dir], items, it, t, target);
    PriorContentIsContent(a, it);
    prior := PriorContent(a, it);
    SameShapeTransitive(next.world, a, w0);
  }

  /** Adding the new item's backup file keeps the files good and their
      destinations distinct, and adds one file. */
  lemma FilesAfterWrite(w0: World, d: BackupDir, d': BackupDir, name: string, t: Target, prior: Value,
                        decode: string -> Option<Value>, target: string -> Option<Target>)
    requires FilesGood(w0, d, decode, target)
    requires forall f :: f in d ==> target(f) != Some(t)
    requires name !in d && target(name) == Some(t) && EndsWith(name, ".json")
    requires ContentAt(w0, t) == Some(prior)
    requires d' == d[name := Readable(BackupDoc(prior, decode))]
    ensures FilesGood(w0, d', decode, target)
    ensures |d'| == |d| + 1
  {
    forall f | f in d'
      ensures FileOk(w0, d', f, decode, target)
    {
      if f != name {
        assert FileOk(w0, d, f, decode, target);
      }
    }
  }

  /** Only the new item's destination changed, and it now has a file. */
  lemma ContentsAfterWrite(w0: World, a: World, a': World, d: BackupDir, d': BackupDir,
                           name: string, t: Target, target: string -> Option<Target>)
    requires ChangesFiled(w0, a, d, target)
    requires forall u :: u != t ==> ContentAt(a', u) == ContentAt(a, u)
    requires d.Keys <= d'.Keys && name in d' && target(name) == Some(t)
    ensures ChangesFiled(w0, a', d', target)
  {
    forall u | ContentAt(a', u) != ContentAt(w0, u)
      ensures exists f :: f in d' && target(f) == Some(u)
    {
      if u != t {
        var f :| f in d && target(f) == Some(u);
        assert f in d';
      }
    }
  }

  /** The new step's file restores what it wrote. */
  lemma StepsAfterWrite(steps: seq<Step>, s: Step, d: BackupDir, d': BackupDir,
                        target: string -> Option<Target>)
    requires StepsFiled(steps, d, target)
    requires s.Wrote? && s.file in d' && target(s.file) == Some(s.target) && d.Keys <= d'.Keys
    ensures StepsFiled(steps + [s], d', target)
  {
    forall i | 0 <= i < |steps + [s]| && (steps + [s])[i].Wrote?
      ensures (steps + [s])[i].file in d' && target((steps + [s])[i].file) == Some((steps + [s])[i].target)
    {
      if i < |steps| {
        assert (steps + [s])[i] == steps[i];
      }
    }
  }

  /** The new file belongs to the new item's rule. */
  lemma BelongsAfterWrite(w0: World, items: seq<Value>, item: Value, it: Item, d: BackupDir, d': BackupDir,
                          name: string, t: Target, target: string -> Option<Target>)
    requires FilesBelong(w0, d, items, target)
    requires ItemOf(item) == Some(it) && Belongs(w0, t, it.ruleId) && target(name) == Some(t)
    requires d'.Keys == d.Keys + {name}
    ensures FilesBelong(w0, d', items + [item], target)
  {
    var items' := items + [item];
    FilesBelongSnoc(w0, d, items, item, target);
    forall f | f in d'
      ensures exists i :: 0 <= i < |items'| && ItemOf(items'[i]).Some? &&
                          Belongs(w0, target(f).value, ItemOf(items'[i]).value.ruleId)
    {
      if f == name {
        assert items'[|items|] == item;
      }
    }
  }

  /** A written item keeps the invariant. Its step `s` backed up the
      starting content `prior` of the fresh destination `t` and then wrote
      `t` alone. */
  lemma InvWrote(w0: World, a: World, a': World, dir: (string, string), items: seq<Value>, steps: seq<Step>,
                 item: Value, s: Step, it: Item, t: Target, prior: Value,
                 decode: string -> Option<Value>, target: string -> Option<Target>)
    requires Inv(w0, a, dir, items, steps, decode, target)
    requires ItemOf(item) == Some(it) && Belongs(w0, t, it.ruleId)
    requires s.Wrote? && s.target == t && target(s.file) == Some(t) && EndsWith(s.file, ".json")
    requires forall f :: f in a.backups[dir] ==> target(f) != Some(t)
    requires s.file !in a.backups[dir] && ContentAt(w0, t) == Some(prior)
    requires dir in a'.backups && a'.backups[dir] == a.backups[dir][s.file := Readable(BackupDoc(prior, decode))]
    requires forall u :: u != t ==> ContentAt(a', u) == ContentAt(a, u)
    requires SameShape(a', w0)
    ensures Inv(w0, a', dir, items + [item], steps + [s], decode, target)
  {
    var d := a.backups[dir];
    var d' := a'.backups[dir];
    WriteCountSnoc(steps, s);
    FilesAfterWrite(w0, d, d', s.file, t, prior, decode, target);
    ContentsAfterWrite(w0, a, a', d, d', s.file, t, target);
    StepsAfterWrite(steps, s, d, d', target);
    BelongsAfterWrite(w0, items, item, it, d, d', s.file, t, target);
  }

  /** The invariant holds after the whole loop, started on an empty
      directory over a world with the starting contents. */
  lemma {:induction false} ApplyAllInv(w0: World, w1: World, dir: (string, string), items: seq<Value>,
                                       decode: string -> Option<Value>, backupOk: string -> bool,
                                       target: string -> Option<Target>)
    requires WellFormed(w0) && NamesParse(target) && DistinctItems(items)
    requires w1.rules == w0.rules && w1.validations == w0.validations
    requires dir in w1.backups && w1.backups[dir] == map[]
    ensures var r := ApplyAll(w1, dir, items, decode, backupOk);
            Inv(w0, r.world, dir, items, r.steps, decode, target)
    decreases |items|
  {
    if items == [] {
      assert forall t :: ContentAt(w1, t) == ContentAt(w0, t);
    } else {
      var n := |items| - 1;
      var xs := items[..n];
      assert items == xs + [items[n]];
      assert DistinctItems(xs);
      ApplyAllSnoc(w1, dir, xs, items[n], decode, backupOk);
      ApplyAllInv(w0, w1, dir, xs, decode, backupOk, target);
      var prev := ApplyAll(w1, dir, xs, decode, backupOk);
      var next := ApplyItem(prev.world, dir, items[n], decode, backupOk);
      assert forall i :: 0 <= i < |xs| && ItemOf(xs[i]).Some? && ItemOf(items[n]).Some? ==>
               ItemOf(xs[i]).value.ruleId != ItemOf(items[n]).value.ruleId by {
        forall i | 0 <= i < |xs|
          ensures ItemOf(xs[i]).Some? && ItemOf(items[n]).Some? ==>
                  ItemOf(xs[i]).value.ruleId != ItemOf(items[n]).value.ruleId
        {
          assert xs[i] == items[i];
        }
      }
      if next.step.Wrote? {
        var it, t, prior := WroteFacts(w0, prev.world, dir, xs, prev.steps, items[n], decode, backupOk, target);
        InvWrote(w0, prev.world, next.world, dir, xs, prev.steps, items[n], next.step, it, t, prior, decode, target);
      } else {
        ApplyItemSkipped(prev.world, dir, items[n], decode, backupOk);
        InvSkip(w0, prev.world, dir, xs, prev.steps, items[n], next.step, decode, target);
      }
    }
  }

  // ---------------------------------------------------------------------
  // Restoring the directory
  // ---------------------------------------------------------------------

  lemma {:induction false} RestoreFilesCountAll(target: string -> Option<Target>, w: World, dir: BackupDir,
                                                files: seq<string>)
    requires forall i :: 0 <= i < |files| ==> Restores(target, dir, files[i])
    ensures RestoreFiles(target, w, dir, files).count == |files|
    decreases |files|
  {
    if files != [] {
      var n := |files| - 1;
      assert forall i :: 0 <= i < n ==> files[..n][i] == files[i];
      RestoreFilesCountAll(target, w, dir, files[..n]);
      RestoreOneEffect(target, RestoreFiles(target, w, dir, files[..n]), dir, files[n], TargetOf(RuleDest(0, 0)));
    }
  }

  /** Restoring every file of a directory in which the invariant holds,
      each file once: every destination is back at its starting content, or
      at the backup document of that content when apply wrote it; the count
      is the number of files. */
  lemma RestoreAllFiles(w0: World, a: World, d: BackupDir, files: seq<string>,
                        decode: string -> Option<Value>, target: string -> Option<Target>)
    requires WellFormed(w0) && SameShape(a, w0)
    requires FilesGood(w0, d, decode, target) && ChangesFiled(w0, a, d, target)
    requires forall f :: f in files <==> f in d
    requires forall i, j :: 0 <= i < j < |files| ==> files[i] != files[j]
    ensures var r := RestoreFiles(target, a, d, files);
            && r.count == |files|
            && SameShape(r.world, w0)
            && (forall t :: (exists f :: f in d && target(f) == Some(t)) ==>
                  ContentAt(w0, t).Some? && ContentAt(r.world, t) == Some(BackupDoc(ContentAt(w0, t).value, decode)))
            && (forall t :: (forall f :: f in d ==> target(f) != Some(t)) ==>
                  ContentAt(r.world, t) == ContentAt(w0, t))
  {
    var r := RestoreFiles(target, a, d, files);
    SameShapeFacts(a, w0);
    forall i | 0 <= i < |files| ensures Restores(target, d, files[i]) {
      assert FileOk(w0, d, files[i], decode, target);
    }
    RestoreFilesCountAll(target, a, d, files);
    RestoreFilesEffect(target, a, d, files, RuleTarget(-1, -1));
    SameShapeTransitive(r.world, a, w0);
    forall t | exists f :: f in d && target(f) == Some(t)
      ensures ContentAt(w0, t).Some? && ContentAt(r.world, t) == Some(BackupDoc(ContentAt(w0, t).value, decode))
    {
      var f :| f in d && target(f) == Some(t);
      var k :| 0 <= k < |files| && files[k] == f;
      assert FileOk(w0, d, f, decode, target);
      forall i | 0 <= i < |files| && i != k && Restores(target, d, files[i])
        ensures target(files[i]) != target(files[k])
      {
        assert files[i] in d;
      }
      RestoreFilesWrites(target, a, d, files, k);
    }
    forall t | forall f :: f in d ==> target(f) != Some(t)
      ensures ContentAt(r.world, t) == ContentAt(w0, t)
    {
      RestoreFilesEffect(target, a, d, files, t);
    }
  }

  /** Sorting the names of a directory of ".json" files lists each file
      once. */
  lemma SortedListing(d: BackupDir)
    requires forall f :: f in d ==> EndsWith(f, ".json")
    ensures var files := SortedNames(JsonNames(d));
            && (forall f :: f in files <==> f in d)
            && |files| == |d|
            && (forall i, j :: 0 <= i < j < |files| ==> files[i] != files[j])
  {
    assert JsonNames(d) == d.Keys;
    var files := SortedNames(JsonNames(d));
    forall i, j | 0 <= i < j < |files| ensures files[i] != files[j] {
      StrLessIrreflexive(files[i]);
    }
  }

  /** The env document `save_env_output` writes lists each rule id once, so
      every staged document meets the round trip's requirement on items. */
  lemma StagedItemsDistinct(env: string, updatedAt: string, entries: seq<Staging.StagedRule>)
    ensures RulesList(Staging.EnvDocument(env, updatedAt, Staging.Staged(entries))).Ok?
    ensures DistinctItems(RulesList(Staging.EnvDocument(env, updatedAt, Staging.Staged(entries))).value)
  {
    var staged := Staging.Staged(entries);
    RulesListOfEnvDocument(env, updatedAt, staged);
    Staging.StagedAscending(entries);
    var items := RulesList(Staging.EnvDocument(env, updatedAt, staged)).value;
    forall i, j | 0 <= i < j < |items| && ItemOf(items[i]).Some? && ItemOf(items[j]).Some?
      ensures ItemOf(items[i]).value.ruleId != ItemOf(items[j]).value.ruleId
    {
      assert items[i] == Staging.RecordOf(staged[i]) && items[j] == Staging.RecordOf(staged[j]);
      ItemOfRecord(staged[i]);
      ItemOfRecord(staged[j]);
    }
  }

  // ---------------------------------------------------------------------
  // The round trip
  // ---------------------------------------------------------------------

  /** Apply, then restore the directory it wrote: restore reports as many
      files as apply reported writes; every destination apply overwrote is
      back at the backup document of its starting content, and every other
      destination never changed; keys, statuses, ids and times are as they
      were. */
  lemma ApplyThenRestore(w0: World, env: string, timestamp: string, envFile: Option<Value>,
                         decode: string -> Option<Value>, backupOk: string -> bool)
    requires WellFormed(w0)
    requires timestamp != "" && (env, timestamp) !in w0.backups
    requires envFile.Some?
    requires RulesList(envFile.value).Ok? ==> DistinctItems(RulesList(envFile.value).value)
    ensures var applied := ApplyRun(w0, env, timestamp, envFile, decode, backupOk);
            var restored := RestoreRun(applied.world, env, Some(timestamp));
            && restored.count.Ok?
            && (applied.count.Ok? ==> restored.count == applied.count)
            && SameShape(restored.world, w0)
            && forall t :: || ContentAt(restored.world, t) == ContentAt(w0, t)
                           || (ContentAt(w0, t).Some? &&
                               ContentAt(restored.world, t) == Some(BackupDoc(ContentAt(w0, t).value, decode)))
  {
    var dir := (env, timestamp);
    var w1 := EnsureDir(w0, dir);
    var items := if RulesList(envFile.value).Ok? then RulesList(envFile.value).value else [];
    var run := ApplyAll(w1, dir, items, decode, backupOk);
    var applied := ApplyRun(w0, env, timestamp, envFile, decode, backupOk);
    assert applied.world == run.world;
    assert RulesList(envFile.value).Ok? ==> applied.count == Ok(WriteCount(run.steps));
    FileTargetParses();
    ApplyAllInv(w0, w1, dir, items, decode, backupOk, FileTarget);
    var d := run.world.backups[dir];
    assert forall f :: f in d ==> FileOk(w0, d, f, decode, FileTarget);
    SortedListing(d);
    var files := SortedNames(JsonNames(d));
    RestoreAllFiles(w0, run.world, d, files, decode, FileTarget);
  }

  /** A world of the starting shape in which every destination holds its
      starting content, or the backup document of it, holds the same tables
      when no starting content is a string. */
  lemma SameTables(w0: World, w2: World, decode: string -> Option<Value>)
    requires WellFormed(w0) && SameShape(w2, w0)
    requires forall k :: k in w0.rules ==> !w0.rules[k].content.Str?
    requires forall i :: 0 <= i < |w0.validations| ==> !w0.validations[i].content.Str?
    requires forall t :: || ContentAt(w2, t) == ContentAt(w0, t)
                         || (ContentAt(w0, t).Some? &&
                             ContentAt(w2, t) == Some(BackupDoc(ContentAt(w0, t).value, decode)))
    ensures w2.rules == w0.rules && w2.validations == w0.validations
  {
    SameShapeFacts(w2, w0);
    forall k | k in w0.rules ensures w2.rules[k] == w0.rules[k] {
      var t := RuleTarget(k.0, k.1);
      assert ContentAt(w0, t) == Some(w0.rules[k].content);
    }
    forall i | 0 <= i < |w0.validations| ensures w2.validations[i] == w0.validations[i] {
      var x := w0.validations[i];
      ValidationContentOfRow(w0.validations, x);
      ValidationContentOfRow(w2.validations, w2.validations[i]);
      assert ContentAt(w0, ValidationTarget(x.id)) == Some(x.content);
    }
  }

  /** When no starting content is a string, the round trip is exact: both
      tables are back as they were. */
  lemma ApplyThenRestoreExact(w0: World, env: string, timestamp: string, envFile: Option<Value>,
                              decode: string -> Option<Value>, backupOk: string -> bool)
    requires WellFormed(w0)
    requires forall k :: k in w0.rules ==> !w0.rules[k].content.Str?
    requires forall i :: 0 <= i < |w0.validations| ==> !w0.validations[i].content.Str?
    requires timestamp != "" && (env, timestamp) !in w0.backups
    requires envFile.Some?
    requires RulesList(envFile.value).Ok? ==> DistinctItems(RulesList(envFile.value).value)
    ensures var applied := ApplyRun(w0, env, timestamp, envFile, decode, backupOk);
            var restored := RestoreRun(applied.world, env, Some(timestamp));
            restored.world.rules == w0.rules && restored.world.validations == w0.validations
  {
    var applied := ApplyRun(w0, env, timestamp, envFile, decode, backupOk);
    ApplyThenRestore(w0, env, timestamp, envFile, decode, backupOk);
    SameTables(w0, RestoreRun(applied.world, env, Some(timestamp)).world, decode);
  }
}
