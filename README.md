# Rule-content migration: a verified model

This project models the migration tool in `main.py`. The tool rewrites the
legacy `sender_receiver` marker inside the JSON "facts" of stored rules into
a `perspectives` list, and tags each converted fact with the type
`MULTIPLE_PERSPECTIVES_AGGREGATION`. It stages the rewritten rules in an env
file. It applies that file to the database, writing a backup file of every
destination before overwriting it. It restores a backup directory by
replaying its files.

Modules (one file each):

- `Wrappers` (`wrappers.dfy`): `Option`, and `Result`, where `Raised` is an
  uncaught Python exception.
- `PyValues` (`values.dfy`): JSON values as Python sees them, plus
  `str.strip`, `str.lower` and truthiness.
- `Perspectives` (`perspectives.dfy`): the marker normaliser,
  `to_perspective_object`, `merge_perspectives` and `convert_fact`.
- `RuleContent` (`rule_content.dfy`): `parse_rule_content` and
  `process_rule`.
- `Staging` (`staging.dfy`): the id-keyed dict and the sort in
  `save_env_output`, and the fetch loop of `main`.
- `Sorting` (`sorting.dfy`): Python's `sorted` on a set of file names.
- `BackupNames` (`backup_names.dfy`): how backup file names are built, and
  `_parse_backup_filename`.
- `Database` (`database.dfy`): the `rule` and `rule_validation` tables, the
  backup directories, and `apply_rules_from_env_file` and
  `restore_from_backup` as functions of that state.
- `RoundTrip` (`roundtrip.dfy`): the proof that restore undoes apply.
- `Engine` (`engine.dfy`): the class `Store`. Its fields are the two tables
  and the backup directories. Its methods `Apply` and `Restore` update them
  item by item and file by file. Each is proved to end in the state the
  functions of `Database` give.

Operations whose loops update variables are methods with loop invariants,
each proved equal to a specification function:

- `MergePerspectives`, `ConvertFacts`;
- `SaveEnvOutput`, `Fetch`, `SortNames`;
- `Store.Apply`, `Store.RestoreAll`.

`ConvertFact` and `ProcessRule` have no loop of their own. They are methods
because they call `MergePerspectives` and `ConvertFacts`, and each is proved
equal to its function. `Store.Restore` hands its loop to `Store.RestoreAll`.

The properties are proved about those functions.

Inputs the code does not compute itself are parameters:

- JSON decoding is `decode: string -> Option<Value>`, with None where
  `json.loads` raises.
- The decoded env file is `envFile`, None when it is missing or not JSON.
- Whether writing a backup file succeeds is `backupOk(name)`.
- The clock's timestamps are strings passed in.

### Behaviour of the code worth knowing

- **Exceptions.** Parsing and conversion can raise AttributeError in two
  places:
  - `merge_perspectives` raises when an existing perspective's `field` is
    a truthy non-string, because it calls `field.strip()` (main.py:145);
  - `process_rule` raises when the parsed content is truthy but not a
    dict, because it calls `content.get` (main.py:181).

  Both are modelled as `Raised`, and the lemmas say exactly when they
  happen.
- **Missing identifiers.** An env-file item with a missing or non-integer
  `id` or `org_id`, or with no content, is skipped without a write or a
  count (main.py:216-223). It does not stop the run.
- **Round trip.** A string content is backed up decoded as JSON, or as
  `{"raw": ...}` when it does not decode (main.py:255-261 and
  main.py:285-291). Restore then writes that document, not the string.
  - `RoundTrip.ApplyThenRestore` states the exact relation.
  - `RoundTrip.ApplyThenRestoreExact` proves full equality when no stored
    content is a string.
- **When the round trip holds.** It also needs three conditions:
  - a fresh backup directory;
  - no two env-file items with the same rule id;
  - non-negative ids, since `\d+` does not match a minus sign.

  `RoundTrip.StagedItemsDistinct` shows that every document
  `save_env_output` writes meets the item condition.

## Model

| member | source | states |
|---|---|---|
| PyValues.KeyIgnoresCase | main.py:145 | the merge key `field.strip().lower()` of an upper-cased string equals that of the string |
| PyValues.StripIgnoresPadding | main.py:107 | `strip()` gives the same text whatever whitespace surrounds it |
| Perspectives.Normalize | main.py:104-116 | a recognised marker is always one whose spelling table holds the stripped, lower-cased string (NormalizeMatchesSpellings and NormalizeRejects give both directions) |
| Perspectives.NormalizeMatchesSpellings | main.py:104-116 | a value normalises to a marker if and only if it is a string whose stripped, lower-cased text is one of that marker's spellings (sender/s, receiver/r, sender_receiver/senderreceiver/both/sender_and_receiver) |
| Perspectives.NormalizeRejects | main.py:104-116 | normalisation gives None exactly for non-strings and for texts outside the spelling table |
| Perspectives.NormalizeCanonical | main.py:108-109 | each canonical marker name normalises to itself |
| Perspectives.NormalizePlain | main.py:108-115 | every spelling in the table, written in lower case, normalises to its marker |
| Perspectives.NormalizeIgnoresCase | main.py:107 | upper-casing the input does not change the result |
| Perspectives.NormalizeIgnoresPadding | main.py:107 | surrounding whitespace does not change the result |
| Perspectives.PerspectiveObject | main.py:95-101 | the canonical record is a dict of type FIELD on model txn_event, keyed by its own non-empty field |
| Perspectives.CanonicalKept | main.py:95-101 | the perspective object built for a non-empty field is keyed by that field and is already in canonical shape, so merging keeps it |
| Perspectives.Deduplicated | main.py:136-150 | the merged list is never longer than existing + additions |
| Perspectives.Merged | main.py:136-150 | the merge raises exactly when some entry is a dict whose `field` is truthy and not a string; otherwise it is a canonical, duplicate-free list no longer than existing + additions |
| Perspectives.DedupShape | main.py:136-150 | every merged entry is canonical and no two share a stripped, lower-cased field |
| Perspectives.DedupKeySet | main.py:136-150 | the merged keys are exactly the keys of the input entries that are dicts with a non-empty field |
| Perspectives.DedupFirstOccurrences | main.py:136-150 | the merged list is, in input order, the canonical rebuild of the first entry for each key, keeping the original field spelling |
| Perspectives.MergeIdempotent | main.py:136-150 | `merge(merge(e, a), a) == merge(e, a)` |
| Perspectives.MergePerspectives | main.py:136-150 | the loop with its `seen` set and `result` list computes the merge, raising where `strip` raises |
| Perspectives.ConvertFactUnchanged | main.py:153-160 | a non-dict fact, or one whose marker is not recognised, is reported unchanged and left as it was (both directions) |
| Perspectives.ConvertedFact | main.py:153-171 | a non-dict fact is reported unchanged; an unchanged report leaves the fact as it was; a changed fact is a dict of type MULTIPLE_PERSPECTIVES_AGGREGATION with a perspectives list (ConvertFactEffect states the rest) |
| Perspectives.ConvertFactRaises | main.py:153-170 | conversion raises exactly when the marker is recognised and an existing perspective has a truthy non-string field |
| Perspectives.ConvertFactEffect | main.py:162-171 | a converted fact has type MULTIPLE_PERSPECTIVES_AGGREGATION and every other key, `sender_receiver` included, untouched; its perspectives are a canonical, duplicate-free list whose keys are the old keys plus sender_entity_id and/or receiver_entity_id as the marker requires |
| Perspectives.ConvertFactIdempotent | main.py:153-171 | converting a converted fact gives the same fact and the same report |
| Perspectives.ConvertFact | main.py:153-171 | the imperative conversion returns exactly the specified conversion |
| RuleContent.Requote | main.py:129 | the repaired text has the same length; every single quote becomes a double quote and every other character is unchanged |
| RuleContent.ParseRuleContent | main.py:119-133 | a dict is returned as it is; only a dict or a string can parse |
| RuleContent.ParseString | main.py:124-132 | a string gives its strict decoding when that succeeds, and otherwise the decoding of the re-quoted text; it parses exactly when one of the two succeeds |
| RuleContent.ParseWithoutApostrophes | main.py:124-132 | for text without single quotes the result is exactly the strict decoding |
| RuleContent.ConvertAllRaises | main.py:189-192 | the fact loop raises exactly when some fact's conversion raises |
| RuleContent.ConvertAllOk | main.py:189-192 | otherwise every fact is replaced by its conversion, and `updated` holds exactly when some conversion changed its fact |
| RuleContent.ConvertAllIdempotent | main.py:189-192 | with an idempotent conversion the loop is idempotent on its own output |
| RuleContent.ProcessedRule | main.py:174-194 | unparsable content gives None, only a dict or a string can raise, and a rewrite is a dict with a `specification.facts` list (ProcessRuleOutcomes gives every case) |
| RuleContent.ProcessRuleOutcomes | main.py:174-194 | None exactly when the content is unparsable or falsy, `specification` is not a dict, `facts` is not a list, or no fact changed; raises exactly on a truthy non-dict content or a raising fact |
| RuleContent.ProcessRuleRewrite | main.py:174-194 | a rewritten rule is the whole parsed document with only `specification.facts` replaced, each fact converted, at least one changed |
| RuleContent.ProcessRuleIdempotent | main.py:174-194 | processing a rewritten document again returns the same document |
| RuleContent.ConvertFacts | main.py:189-192 | the loop with its `updated` flag computes the specified fact run |
| RuleContent.ProcessRule | main.py:174-194 | the imperative `process_rule` returns exactly the specified outcome |
| Staging.CollectedLastWins | main.py:54-60 | the id-keyed dict holds one value per input id, and it is the last entry with that id |
| Staging.SortById | main.py:61 | sorting by id is a permutation in ascending id order |
| Staging.StagedAscending | main.py:54-61 | staged ids are strictly ascending |
| Staging.StagedIds | main.py:54-61 | the staged ids are exactly the input ids |
| Staging.StagedLastWins | main.py:54-61 | for a repeated id, the last entry's org id and content are staged |
| Staging.Staged | main.py:54-61 | the staged list has no repeated id and holds only entries of the input |
| Staging.EnvDocument | main.py:62-66 | the document's "rules" list holds one `{id, org_id, content}` record per staged rule, in order |
| Staging.SaveEnvOutput | main.py:52-66 | the loop and sort produce the env document of the staged entries |
| Staging.AggregatedRows | main.py:428-434 | the fetch loop raises exactly when some row raises; otherwise it keeps one entry per rewritten row, with that row's id and org id, and no more entries than rows |
| Staging.Fetch | main.py:426-436 | fetch counts the rewritten rows and writes the staged document only when there is at least one |
| Sorting.StrLessTotal | main.py:339 | Python's string `<` orders any two different names exactly one way |
| Sorting.SortedNames | main.py:339 | `sorted` lists every name of the set exactly once, strictly ascending |
| Sorting.SortNames | main.py:339 | the selection loop computes `sorted` |
| BackupNames.NatToString | main.py:253 | an id is written as ASCII digits without a leading zero |
| BackupNames.BackupName | main.py:253 | every backup name starts with `rule_` and ends with `_original.json` |
| BackupNames.RuleNameRoundTrip | main.py:282 | parsing a rule backup name gives back the rule destination it was built from |
| BackupNames.ValidationNameRoundTrip | main.py:253 | parsing a validation backup name gives back its rule, org and validation ids |
| BackupNames.ParseBackupNameOfName | main.py:311-324 | the parser inverts every name apply builds for non-negative ids |
| BackupNames.ParseBackupName | main.py:311-324 | a parsed name always yields non-negative ids |
| BackupNames.BackupNameInjective | main.py:253 | different destinations get different backup names |
| BackupNames.ParseBackupNameOfNegative | main.py:311-324 | a name built from a negative id does not parse, so restore ignores it |
| BackupNames.ParsedNameShape | main.py:311-324 | whatever parses is exactly `rule_`, digits, `_org_`, digits, for a validation record `_validation_` and digits, then `_original.json` and at most one newline; each digit group reads as the id parsed from it |
| Database.WriteEffect | main.py:269-272 | an UPDATE sets its own destination when it exists, changes no other destination, and changes no key, status, id, time or backup |
| Database.LatestValidation | main.py:235-248 | the selected record belongs to the rule, and no record of the rule sorts before it (created_at descending, nulls last, then id descending); None exactly when the rule has no record |
| Database.LatestIsUnique | main.py:240 | with unique ids the ordering has no ties: the record no other sorts before is the one selected |
| Database.BackupDocOf | main.py:255-261 | a backup holds the prior content as it is, unless that content is a string, which is decoded or wrapped as `{"raw": ...}` |
| Database.BackupDoc | main.py:255-261 | a non-string prior is backed up as it is; a string is backed up decoded, or as `{"raw": ...}` when it does not decode |
| Database.ItemOfFields | main.py:216-223 | an item is skipped exactly when it is not a dict, lacks `id` or `org_id`, has one that `int()` rejects, or has missing or null `content`; otherwise its ids are `int()` of those fields and its content is the `content` field |
| Database.ItemOfRecord | main.py:216-219 | a record written by `save_env_output` reads back as its own id, org id and content |
| Database.RulesListOfEnvDocument | main.py:209 | the items apply iterates over are the staged records |
| Database.RulesList | main.py:209 | a non-dict document or one without `rules` gives no items; the run raises exactly when `rules` is a number, a boolean or null; any items read are the `rules` list itself |
| Database.ApplyItemSkipped | main.py:216-302 | a skipped item changes nothing; it is skipped for a missing field, a missing rule, a missing validation record or a failed backup exactly when that check fails, and it is written exactly when it passes the three checks and its backup succeeds |
| Database.ApplyItemWrote | main.py:233-303 | a written item first stores the destination's prior content under the name built at main.py:253 or main.py:282, then writes its content to that destination alone; VALIDATION rules get their latest validation record written, other rules their own row |
| Database.ApplyItem | main.py:216-303 | a skipped item changes nothing; a written item had readable fields and a successful backup whose file is in the run's directory (ApplyItemSkipped gives when each step happens, in both directions, and ApplyItemWrote what a write does) |
| Database.PriorContentIsContent | main.py:249-250 | the content backed up is the content of the destination that is written |
| Database.ApplyAllKeepsBackups | main.py:215-303 | no backup file is removed, every write's backup file is in the directory, only contents change, and writes never outnumber items |
| Database.ApplyAllBacksUp | main.py:215-303 | no destination changes unless a step wrote it after saving its backup file |
| Database.ApplyRunBacksUp | main.py:202-305 | apply reports the number of writes, changes only destinations it backed up first, and changes no content when it raises |
| Database.ApplyRun | main.py:197-305 | a missing env file raises and changes nothing; otherwise the run's directory exists afterwards; a count is returned only for a readable rules list and never exceeds its length |
| Database.EnsureDir | main.py:46-49 | the run's backup directory exists afterwards; an existing directory keeps its files, no other directory changes, and the tables are untouched |
| Database.RestoreOneEffect | main.py:342-371 | one restored file sets the destination its name gives, when that destination exists, to the file's document; nothing else changes, and the file counts exactly when its name parses and it reads as JSON |
| Database.RestoreFilesEffect | main.py:342-371 | restore changes only contents, counts at most one per file, and leaves alone every destination no restored file names |
| Database.RestoreFilesWrites | main.py:342-371 | a destination named by exactly one restored file ends up holding that file's document |
| Database.RestoreFilesKeepsShape | main.py:342-371 | the restore loop never changes the backups, keys, statuses, ids or times, and counts at most one per file |
| Database.RestoreRun | main.py:327-375 | no timestamp, and a missing directory, each raise without change; restore never touches the backups or anything but contents; a count needs an existing directory and is at most its number of `.json` files |
| RoundTrip.FileTargetParses | main.py:311-324 | restore reads back the destination of every name apply builds |
| RoundTrip.ApplyAllInv | main.py:215-303 | after the loop the shape is unchanged, the directory holds exactly one file per write, each holding the backup document of its destination's starting content, no two files name the same destination, and every changed destination has a file |
| RoundTrip.RestoreAllFiles | main.py:339-371 | replaying such a directory counts one per file, sets every destination that has a file to the backup document of its starting content, and leaves every other destination at its starting content |
| RoundTrip.StagedItemsDistinct | main.py:52-66 | a staged env document never lists a rule id twice |
| RoundTrip.ApplyThenRestore | main.py:197-375 | after apply and then restore of its directory, restore counts as many files as apply counted writes; each destination holds its starting content, or the backup document of it; keys, statuses, ids and times are unchanged |
| RoundTrip.ApplyThenRestoreExact | main.py:197-375 | when no stored content is a string, apply-then-restore leaves both tables equal to their starting values, as the program reads them |
| Engine.Store.Update | main.py:269-272 | one UPDATE changes the store as the write function specifies |
| Engine.Store.ApplyOne | main.py:216-303 | one loop iteration changes the store and reports the step as the item function specifies |
| Engine.Store.Apply | main.py:197-305 | the apply loop ends in the specified state with the specified count or exception |
| Engine.Store.RestoreAll | main.py:342-371 | the restore loop ends in the state, and with the count, that the file-loop function gives |
| Engine.Store.Restore | main.py:327-375 | the restore loop ends in the specified state with the specified count or exception |

## Left out

- Files, directories, the database connection, cursors and printed
  diagnostics are not modelled; the backup directories are a map in the
  store, and `ensure_output_dir` and the env-file write are not modelled.
- `load_rules` (SQL text) is not part of this model. The candidate rows are
  an input sequence.
- Argument parsing, `conn.close()`, and the deletion of an old env file
  before a fetch (main.py:378-441) are not modelled.
- JSON encoding and decoding are the `decode` parameter. The stored content
  is a JSON value written and read as it is, with jsonb semantics;
  `json.dumps` on write is not modelled.
- Floating point: JSON numbers are unbounded integers or exact reals.
  The model has no value for infinity or NaN, which `json.load` accepts;
  an `id` or `org_id` holding one makes `int()` raise inside the try at
  main.py:216-223, so the code skips that item, as it does any item the
  model's `IntOf` rejects.
- Transactions are not modelled. Each run is one state transition, and
  the commit (main.py:305, main.py:372) is not modelled. No
  database error is modelled, so no write is ever rolled back.
- The second `SELECT content` in apply's rule branch (main.py:276-280) is
  folded into the first lookup. It reads the same row that was just found,
  so with a single writer it cannot miss.
- Engine.Store.Apply: returns the number of updates the function prints,
  not the backup directory path it returns. That path is determined by
  `(env, timestamp)`, which is the key of the directory in the store.
- Engine.Store.Restore: returns the printed count, not the directory path.
- Database.ApplyItem: a backup failure depends only on the file name
  (`backupOk`). A partially written file left behind by a failing
  `json.dump` is not modelled.
- Database.IntOf: `int()` on a string accepts an optional sign and ASCII
  digits after stripping. Digit-group underscores and non-ASCII decimal
  digits are not accepted.
- PyValues.Lower: lower-cases ASCII letters only; Python's `str.lower()`
  also folds non-ASCII letters. (`strip()` is modelled with the full
  `str.isspace` set, PyValues.IsSpace.)
- BackupNames.ParseBackupName: reads only ASCII digits in the `(\d+)`
  groups. On a Python str, `\d` matches every Unicode decimal digit and
  `int()` converts it, so a name such as `rule_١_org_1_original.json`
  parses in the code (rule id 1) and is restored, but gives None in the
  model.
- RoundTrip.ApplyThenRestoreExact: the model has one `Null`, standing for
  both SQL NULL and JSON `null`. A content that is SQL NULL is backed up as
  `null` and restored as the JSON text `'null'` via `json.dumps(None)`
  (main.py:255-261, main.py:285-291, main.py:358-371). The program reads
  both back as None, but at the database level such a row is not restored
  to SQL NULL, so "exactly" holds only as the program sees the rows.
- Database.RulesList: a `rules` value that is a string or a dict is taken as
  an empty list. Iterating it would yield only strings, and the loop skips
  every string item.
- Database.RestoreOne: a file whose name parses is counted even when its
  UPDATE matches no row, as the code does.
- Database.JsonNames: names ending in ".json" followed by a newline are
  excluded, as in the code, though the name pattern would accept them.
- RoundTrip.ApplyThenRestore: requires unique, non-negative ids, a fresh
  backup directory, and env-file items with distinct rule ids. Without
  these, a later backup in the same run can capture an earlier write, or a
  name may not parse.
