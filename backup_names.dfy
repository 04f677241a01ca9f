/** Names of the backup files written before every update (main.py:253,
    main.py:282) and the parser that maps them back to the row they belong to
    (`_parse_backup_filename`, main.py:311-324). */
module BackupNames {
  import opened Wrappers

  /** The row a backup file belongs to: a rule's content, keyed by rule and
      organisation, or a validation record's content, keyed by its own id. */
  datatype Dest =
    | RuleDest(ruleId: int, orgId: int)
    | ValidationDest(ruleId: int, orgId: int, validationId: int)

  predicate NonNegative(d: Dest) {
    d.ruleId >= 0 && d.orgId >= 0 && (d.ValidationDest? ==> d.validationId >= 0)
  }

  // ---------------------------------------------------------------------
  // Building names: Python's f"{n}" on an int

  predicate IsDigit(c: char) {
    '0' <= c <= '9'
  }

  predicate AllDigits(s: string) {
    forall i :: 0 <= i < |s| ==> IsDigit(s[i])
  }

  function DigitChar(d: nat): (c: char)
    requires d < 10
    ensures IsDigit(c)
  {
    ('0' as int + d) as char
  }

  /** Decimal digits of `n`, without leading zeros. */
  function NatToString(n: nat): (s: string)
    ensures s != [] && AllDigits(s)
    ensures |s| > 1 ==> s[0] != '0'
  {
    if n < 10 then [DigitChar(n)] else NatToString(n / 10) + [DigitChar(n % 10)]
  }

  /** `str(i)` for an int: a minus sign for negative values. */
  function IntToString(i: int): string {
    if i < 0 then "-" + NatToString(-i) else NatToString(i)
  }

  /** The file name under which the current content of `d` is backed up. */
  function BackupName(d: Dest): (r: string)
    ensures "rule_" <= r && EndsWith(r, "_original.json")
  {
    match d
    case RuleDest(r, o) =>
      "rule_" + IntToString(r) + "_org_" + IntToString(o) + "_original.json"
    case ValidationDest(r, o, v) =>
      "rule_" + IntToString(r) + "_org_" + IntToString(o) + "_validation_" + IntToString(v) + "_original.json"
  }

  // ---------------------------------------------------------------------
  // Parsing names: the two anchored regular expressions

  /** Length of the run of ASCII digits that starts `s` (what a greedy `\d+`
      consumes; the separators after each group start with `_`, so no
      backtracking can help a shorter run). */
  function DigitRun(s: string): (n: nat)
    ensures n <= |s|
    ensures AllDigits(s[..n])
    ensures n == |s| || !IsDigit(s[n])
  {
    if s != [] && IsDigit(s[0]) then
      var k := DigitRun(s[1..]);
      assert s[..k + 1] == [s[0]] + s[1..][..k];
      k + 1
    else 0
  }

  /** `int(...)` of a string of ASCII digits; leading zeros are allowed. */
  function DigitsValue(s: string): nat
    requires AllDigits(s)
  {
    if s == [] then 0 else DigitsValue(s[..|s| - 1]) * 10 + (s[|s| - 1] as int - '0' as int)
  }

  /** A number read off the front of a name, and what follows it. */
  datatype Scan = Scan(value: nat, rest: string)

  /** `(\d+)`: at least one digit. */
  function Number(s: string): Option<Scan> {
    var n := DigitRun(s);
    if n == 0 then None else Some(Scan(DigitsValue(s[..n]), s[n..]))
  }

  predicate EndsWith(s: string, suffix: string) {
    |suffix| <= |s| && s[|s| - |suffix|..] == suffix
  }

  /** A fixed piece of the pattern. */
  function Literal(lit: string, s: string): Option<string> {
    if lit <= s then Some(s[|lit|..]) else None
  }

  /** Python's `$` without MULTILINE: the end, or a single final newline. */
  predicate AtEnd(s: string) {
    s == "" || s == "\n"
  }

  /** A fixed piece followed by `(\d+)`. */
  function Field(lit: string, s: string): Option<Scan> {
    var a :- Literal(lit, s);
    Number(a)
  }

  /** The fixed ending `_original\.json$`. */
  predicate Ending(s: string) {
    var e := Literal("_original.json", s);
    e.Some? && AtEnd(e.value)
  }

  /** `^rule_(\d+)_org_(\d+)_validation_(\d+)_original\.json$` */
  function ParseValidationName(s: string): Option<Dest> {
    var r :- Field("rule_", s);
    var o :- Field("_org_", r.rest);
    var v :- Field("_validation_", o.rest);
    if Ending(v.rest) then Some(ValidationDest(r.value, o.value, v.value)) else None
  }

  /** `^rule_(\d+)_org_(\d+)_original\.json$` */
  function ParseRuleName(s: string): Option<Dest> {
    var r :- Field("rule_", s);
    var o :- Field("_org_", r.rest);
    if Ending(o.rest) then Some(RuleDest(r.value, o.value)) else None
  }

  /** `_parse_backup_filename`: the validation shape is tried first. */
  function ParseBackupName(s: string): (r: Option<Dest>)
    ensures r.Some? ==> NonNegative(r.value)
  {
    var v := ParseValidationName(s);
    if v.Some? then v else ParseRuleName(s)
  }

  // ---------------------------------------------------------------------
  // Properties

  lemma LiteralPrefix(lit: string, t: string)
    ensures Literal(lit, lit + t) == Some(t)
  {
    assert (lit + t)[..|lit|] == lit;
    assert (lit + t)[|lit|..] == t;
  }

  lemma {:induction false} DigitRunPrefix(p: string, t: string)
    requires AllDigits(p)
    requires t == [] || !IsDigit(t[0])
    ensures DigitRun(p + t) == |p|
    decreases |p|
  {
    if p == [] {
      assert p + t == t;
    } else {
      assert (p + t)[1..] == p[1..] + t;
      DigitRunPrefix(p[1..], t);
    }
  }

  /** Reading back the digits written for `n` gives `n`. */
  lemma {:induction false} DigitsValueOfNat(n: nat)
    ensures DigitsValue(NatToString(n)) == n
  {
    var s := NatToString(n);
    if n >= 10 {
      DigitsValueOfNat(n / 10);
      assert s[..|s| - 1] == NatToString(n / 10);
    }
  }

  /** A number written for `n` and followed by a non-digit scans as `n`. */
  lemma NumberOfNat(n: nat, t: string)
    requires t == [] || !IsDigit(t[0])
    ensures Number(NatToString(n) + t) == Some(Scan(n, t))
  {
    var s := NatToString(n);
    DigitRunPrefix(s, t);
    assert (s + t)[..|s|] == s;
    assert (s + t)[|s|..] == t;
    DigitsValueOfNat(n);
  }

  lemma FieldOfNat(lit: string, n: nat, t: string)
    requires t == [] || !IsDigit(t[0])
    ensures Field(lit, lit + NatToString(n) + t) == Some(Scan(n, t))
  {
    assert lit + NatToString(n) + t == lit + (NatToString(n) + t);
    LiteralPrefix(lit, NatToString(n) + t);
    NumberOfNat(n, t);
  }

  /** A minus sign is not a digit, so no number scans there. */
  lemma FieldOfNegative(lit: string, i: int, t: string)
    requires i < 0
    ensures Field(lit, lit + IntToString(i) + t) == None
  {
    assert lit + IntToString(i) + t == lit + (IntToString(i) + t);
    LiteralPrefix(lit, IntToString(i) + t);
    assert (IntToString(i) + t)[0] == '-';
  }

  lemma EndingOfSuffix()
    ensures Ending("_original.json")
  {
    LiteralPrefix("_original.json", "");
    assert "_original.json" + "" == "_original.json";
  }

  /** A rule name stops where a validation name goes on. */
  lemma FieldOfSuffix(t: string)
    ensures Field("_validation_", "_original.json" + t) == None
  {
    assert ("_original.json" + t)[1] == 'o';
  }

  /** How the parser reads a rule name, one group at a time. */
  lemma ParseRuleSteps(name: string, r: nat, o: nat, t2: string)
    requires Field("rule_", name) == Some(Scan(r, t2))
    requires Field("_org_", t2) == Some(Scan(o, "_original.json"))
    ensures ParseBackupName(name) == Some(RuleDest(r, o))
  {
    FieldOfSuffix("");
    assert "_original.json" + "" == "_original.json";
    EndingOfSuffix();
  }

  /** How the parser reads a validation name, one group at a time. */
  lemma ParseValidationSteps(name: string, r: nat, o: nat, v: nat, t2: string, t3: string)
    requires Field("rule_", name) == Some(Scan(r, t2))
    requires Field("_org_", t2) == Some(Scan(o, t3))
    requires Field("_validation_", t3) == Some(Scan(v, "_original.json"))
    ensures ParseBackupName(name) == Some(ValidationDest(r, o, v))
  {
    EndingOfSuffix();
  }

  /** The groups of a built name: `rule_`, the rule id, and what follows. */
  lemma NameGroups(d: Dest)
    ensures var t3 := if d.RuleDest? then "_original.json"
                      else "_validation_" + IntToString(d.validationId) + "_original.json";
            BackupName(d) == "rule_" + IntToString(d.ruleId) + ("_org_" + IntToString(d.orgId) + t3)
  {
  }

  lemma RuleNameRoundTrip(r: nat, o: nat)
    ensures ParseBackupName(BackupName(RuleDest(r, o))) == Some(RuleDest(r, o))
  {
    var t2 := "_org_" + NatToString(o) + "_original.json";
    NameGroups(RuleDest(r, o));
    FieldOfNat("rule_", r, t2);
    FieldOfNat("_org_", o, "_original.json");
    ParseRuleSteps(BackupName(RuleDest(r, o)), r, o, t2);
  }

  lemma ValidationNameRoundTrip(r: nat, o: nat, v: nat)
    ensures ParseBackupName(BackupName(ValidationDest(r, o, v))) == Some(ValidationDest(r, o, v))
  {
    var t3 := "_validation_" + NatToString(v) + "_original.json";
    var t2 := "_org_" + NatToString(o) + t3;
    NameGroups(ValidationDest(r, o, v));
    FieldOfNat("rule_", r, t2);
    FieldOfNat("_org_", o, t3);
    FieldOfNat("_validation_", v, "_original.json");
    ParseValidationSteps(BackupName(ValidationDest(r, o, v)), r, o, v, t2, t3);
  }

  /** Every name built for non-negative ids parses back to its row. */
  lemma ParseBackupNameOfName(d: Dest)
    requires NonNegative(d)
    ensures ParseBackupName(BackupName(d)) == Some(d)
  {
    match d
    case RuleDest(r, o) => RuleNameRoundTrip(r, o);
    case ValidationDest(r, o, v) => ValidationNameRoundTrip(r, o, v);
  }

  /** Distinct rows get distinct backup names. */
  lemma BackupNameInjective(d1: Dest, d2: Dest)
    requires NonNegative(d1) && NonNegative(d2)
    requires BackupName(d1) == BackupName(d2)
    ensures d1 == d2
  {
    ParseBackupNameOfName(d1);
    ParseBackupNameOfName(d2);
  }

  /** The three places where the parser can give up on a name. */
  lemma ParseStops(name: string)
    requires || Field("rule_", name).None?
             || Field("_org_", Field("rule_", name).value.rest).None?
             || (var t3 := Field("_org_", Field("rule_", name).value.rest).value.rest;
                 Field("_validation_", t3).None? && !Ending(t3))
    ensures ParseBackupName(name) == None
  {
  }

  /** A validation name does not stop where a rule name does. */
  lemma NotEnding(t: string)
    ensures !Ending("_validation_" + t)
  {
    assert ("_validation_" + t)[1] == 'v';
  }

  /** A name built for a negative id does not parse: its backup is never
      restored. */
  lemma ParseBackupNameOfNegative(d: Dest)
    requires !NonNegative(d)
    ensures ParseBackupName(BackupName(d)) == None
  {
    var name := BackupName(d);
    var end := "_original.json";
    var t3 := if d.RuleDest? then end else "_validation_" + IntToString(d.validationId) + end;
    var t2 := "_org_" + IntToString(d.orgId) + t3;
    NameGroups(d);
    if d.ruleId < 0 {
      FieldOfNegative("rule_", d.ruleId, t2);
    } else {
      FieldOfNat("rule_", d.ruleId, t2);
      NegativeAfterRule(d, t3);
    }
    ParseStops(name);
  }

  lemma NegativeAfterRule(d: Dest, t3: string)
    requires d.ruleId >= 0 && !NonNegative(d)
    requires t3 == if d.RuleDest? then "_original.json"
                   else "_validation_" + IntToString(d.validationId) + "_original.json"
    ensures var t2 := "_org_" + IntToString(d.orgId) + t3;
            || Field("_org_", t2).None?
            || (Field("_org_", t2) == Some(Scan(d.orgId, t3)) && Field("_validation_", t3).None? && !Ending(t3))
  {
    if d.orgId < 0 {
      FieldOfNegative("_org_", d.orgId, t3);
    } else {
      FieldOfNat("_org_", d.orgId, t3);
      NegativeValidation(d.validationId);
    }
  }

  lemma NegativeValidation(v: int)
    requires v < 0
    ensures var t3 := "_validation_" + IntToString(v) + "_original.json";
            Field("_validation_", t3).None? && !Ending(t3)
  {
    FieldOfNegative("_validation_", v, "_original.json");
    NotEnding(IntToString(v) + "_original.json");
    assert "_validation_" + IntToString(v) + "_original.json" == "_validation_" + (IntToString(v) + "_original.json");
  }

  /** What follows a parsed group is the tail of the text it was read from. */
  lemma FieldRest(lit: string, s: string, sc: Scan)
    requires Field(lit, s) == Some(sc)
    ensures lit <= s && EndsWith(s, sc.rest)
  {
  }

  lemma EndsWithTrans(s: string, t: string, u: string)
    requires EndsWith(s, t) && EndsWith(t, u)
    ensures EndsWith(s, u)
  {
    assert s[|s| - |u|..] == s[|s| - |t|..][|t| - |u|..];
  }

  lemma EndingShape(rest: string)
    requires Ending(rest)
    ensures rest == "_original.json" || rest == "_original.json\n"
  {
    var e := Literal("_original.json", rest).value;
    assert rest == "_original.json" + e;
  }

  lemma ValidationParts(s: string) returns (r: Scan, o: Scan, v: Scan)
    requires ParseValidationName(s).Some?
    ensures Field("rule_", s) == Some(r) && Field("_org_", r.rest) == Some(o)
    ensures Field("_validation_", o.rest) == Some(v) && Ending(v.rest)
  {
    r := Field("rule_", s).value;
    o := Field("_org_", r.rest).value;
    v := Field("_validation_", o.rest).value;
  }

  lemma RuleParts(s: string) returns (r: Scan, o: Scan)
    requires ParseRuleName(s).Some?
    ensures Field("rule_", s) == Some(r) && Field("_org_", r.rest) == Some(o) && Ending(o.rest)
  {
    r := Field("rule_", s).value;
    o := Field("_org_", r.rest).value;
  }

  /** A scanned field is the literal, a non-empty run of digits whose value
      is the number read, and the rest. */
  lemma FieldSplit(lit: string, s: string, sc: Scan) returns (digits: string)
    requires Field(lit, s) == Some(sc)
    ensures digits != [] && AllDigits(digits) && DigitsValue(digits) == sc.value
    ensures s == lit + digits + sc.rest
  {
    var a := s[|lit|..];
    var n := DigitRun(a);
    digits := a[..n];
    assert a == digits + a[n..];
    assert s == s[..|lit|] + a;
  }

  /** Whatever parses has exactly the shape of a backup name:
      `rule_`, digits, `_org_`, digits, for a validation record
      `_validation_` and digits, then `_original.json` and at most one
      newline; each digit group reads as the id parsed from it (leading
      zeros allowed). */
  lemma ParsedNameShape(s: string, d: Dest) returns (a: string, b: string, c: string, nl: string)
    requires ParseBackupName(s) == Some(d)
    ensures a != [] && AllDigits(a) && DigitsValue(a) == d.ruleId
    ensures b != [] && AllDigits(b) && DigitsValue(b) == d.orgId
    ensures d.ValidationDest? ==> c != [] && AllDigits(c) && DigitsValue(c) == d.validationId
    ensures d.RuleDest? ==> c == ""
    ensures nl == "" || nl == "\n"
    ensures s == "rule_" + a + "_org_" + b + (if d.ValidationDest? then "_validation_" + c else "")
                 + "_original.json" + nl
  {
    var r: Scan, o: Scan, rest: string;
    if ParseValidationName(s).Some? {
      var v: Scan;
      r, o, v := ValidationParts(s);
      assert d == ValidationDest(r.value, o.value, v.value);
      a := FieldSplit("rule_", s, r);
      b := FieldSplit("_org_", r.rest, o);
      c := FieldSplit("_validation_", o.rest, v);
      nl := EndingSplit(v.rest);
      Joined(s, a, b, "_validation_" + c, nl, r.rest, o.rest, v.rest);
    } else {
      r, o := RuleParts(s);
      assert d == RuleDest(r.value, o.value);
      a := FieldSplit("rule_", s, r);
      b := FieldSplit("_org_", r.rest, o);
      c := "";
      nl := EndingSplit(o.rest);
      Joined(s, a, b, "", nl, r.rest, o.rest, o.rest);
    }
  }

  /** The fixed ending and what follows it. */
  lemma EndingSplit(rest: string) returns (nl: string)
    requires Ending(rest)
    ensures nl == "" || nl == "\n"
    ensures rest == "_original.json" + nl
  {
    EndingShape(rest);
    nl := rest[|"_original.json"|..];
    assert rest == rest[..|"_original.json"|] + nl;
  }

  /** Putting the groups of a name back together. */
  lemma Joined(s: string, a: string, b: string, mid: string, nl: string, t1: string, t2: string, t3: string)
    requires s == "rule_" + a + t1 && t1 == "_org_" + b + t2
    requires t2 == mid + t3 && t3 == "_original.json" + nl
    ensures s == "rule_" + a + "_org_" + b + mid + "_original.json" + nl
  {
  }

}
