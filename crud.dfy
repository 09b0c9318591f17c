/** The record layer every section calls into: sheet configuration,
    sequential ID generation, the three validators and their combination,
    create/update/delete against the positional store, and search with
    filters and pages. */
module Crud {
  import opened PyValues
  import opened Worksheet
  import opened Session
  import Validation

  // ===== configuration =====

  /** The `'schedule_conflict_check'` entry of `conflict_rules`. A key that
      is not given is `None`. */
  datatype ConflictRule = ConflictRule(
    dayField: Option<string>,
    startField: Option<string>,
    endField: Option<string>,
    resourceFields: seq<string>,
    message: Option<string>)

  /** `SheetConfig`; `conflictRules` is `None` when `conflict_rules` has no
      `'schedule_conflict_check'` entry. */
  datatype SheetConfig = SheetConfig(
    name: string,
    idColumn: string,
    idPrefix: string,
    requiredColumns: seq<string>,
    uniqueColumns: seq<string>,
    conflictRules: Option<ConflictRule>)

  /** A configuration with every optional argument left out. */
  function DefaultConfig(name: string): (c: SheetConfig)
    ensures c.name == name && c.idColumn == "ID" && c.idPrefix == ""
    ensures c.requiredColumns == [] && c.uniqueColumns == [] && c.conflictRules == None
  {
    SheetConfig(name, "ID", "", [], [], None)
  }

  const DEFAULT_OVERLAP_MESSAGE: string := "Conflito de horário detectado"

  /** The cell of a snapshot record; a record built from the store holds
      every column, and a shorter row reads as an empty string. */
  function Cell(row: Record, column: string): Value {
    Get(row, column, Str(""))
  }

  // ===== generate_unique_id =====

  /** The number an existing ID contributes: a string that starts with the
      prefix and, with every occurrence of the prefix removed, parses with
      `int()`. */
  function IdNumber(v: Value, prefix: string): Option<int> {
    if v.Str? && StartsWith(v.s, prefix) then ParseInt(RemoveAll(v.s, prefix)) else None
  }

  /** `existing_ids`: the numbers of the counted IDs, in column order. */
  function Counted(vals: seq<Value>, prefix: string): (r: seq<int>)
    ensures |r| <= |vals|
  {
    if vals == [] then []
    else
      var init := Counted(vals[..|vals| - 1], prefix);
      match IdNumber(vals[|vals| - 1], prefix)
      case Some(n) => init + [n]
      case None => init
  }

  /** Exactly the IDs that yield a number are counted; every other value is
      skipped. */
  lemma {:induction false} CountedIff(vals: seq<Value>, prefix: string, n: int)
    ensures n in Counted(vals, prefix) <==> exists i :: 0 <= i < |vals| && IdNumber(vals[i], prefix) == Some(n)
  {
    if vals != [] {
      var init := vals[..|vals| - 1];
      CountedIff(init, prefix, n);
      assert forall i :: 0 <= i < |init| ==> init[i] == vals[i];
    }
  }

  /** `sheet_df[column]`. */
  function ColumnValues(df: Frame, column: string): (r: seq<Value>)
    ensures |r| == |df.rows|
  {
    seq(|df.rows|, i requires 0 <= i < |df.rows| => Get(df.rows[i], column, Null))
  }

  /** `max(s)`. */
  function MaxOf(s: seq<int>): (m: int)
    requires s != []
    ensures m in s && forall x :: x in s ==> x <= m
  {
    if |s| == 1 then s[0]
    else
      var m := MaxOf(s[..|s| - 1]);
      assert forall x :: x in s ==> x in s[..|s| - 1] || x == s[|s| - 1];
      if s[|s| - 1] > m then s[|s| - 1] else m
  }

  /** The number of the next ID: `start` for an empty snapshot, a missing
      column or no counted ID; otherwise one more than the largest counted
      number. */
  function NextNumber(df: Frame, column: string, prefix: string, start: int): (r: int)
    ensures df.IsEmpty() || column !in df.columns || Counted(ColumnValues(df, column), prefix) == [] ==> r == start
    ensures !df.IsEmpty() && column in df.columns && Counted(ColumnValues(df, column), prefix) != [] ==>
      r - 1 in Counted(ColumnValues(df, column), prefix) && forall x :: x in Counted(ColumnValues(df, column), prefix) ==> x < r
  {
    if df.IsEmpty() || column !in df.columns then start
    else
      var ids := Counted(ColumnValues(df, column), prefix);
      if ids == [] then start else MaxOf(ids) + 1
  }

  /** `generate_unique_id`: the prefix followed by the number, zero-padded to
      four places. */
  function NextId(df: Frame, column: string, prefix: string, start: int): string {
    prefix + Format04(NextNumber(df, column, prefix, start))
  }

  method GenerateUniqueId(df: Frame, column: string, prefix: string, start: int) returns (id: string)
    ensures id == NextId(df, column, prefix, start)
  {
    if df.IsEmpty() || column !in df.columns {
      return prefix + Format04(start);
    }
    var vals := ColumnValues(df, column);
    var existing: seq<int> := [];
    for i := 0 to |vals|
      invariant existing == Counted(vals[..i], prefix)
    {
      assert vals[..i + 1][..i] == vals[..i];
      var v := vals[i];
      if v.Str? && StartsWith(v.s, prefix) {
        var parsed := ParseInt(RemoveAll(v.s, prefix));
        if parsed.Some? {
          existing := existing + [parsed.value];
        }
      }
    }
    assert vals[..|vals|] == vals;
    if existing != [] {
      id := prefix + Format04(MaxOf(existing) + 1);
    } else {
      id := prefix + Format04(start);
    }
  }

  /** A prefix that cannot start inside a formatted number. */
  predicate PrefixSafe(prefix: string) {
    prefix == [] || !(IsAsciiDigit(prefix[0]) || prefix[0] == '-')
  }

  lemma Format04Chars(n: int)
    ensures forall i :: 0 <= i < |Format04(n)| ==> IsAsciiDigit(Format04(n)[i]) || Format04(n)[i] == '-'
  {
    if n < 0 {
      ZeroPadDigits(-n, 3);
    } else {
      ZeroPadDigits(n, 4);
    }
  }

  /** A generated ID reads back as the number it was generated from. */
  lemma IdNumberOfGenerated(prefix: string, n: int)
    requires PrefixSafe(prefix)
    ensures IdNumber(Str(prefix + Format04(n)), prefix) == Some(n)
  {
    var f := Format04(n);
    var s := prefix + f;
    assert s[..|prefix|] == prefix;
    Format04Chars(n);
    if prefix != [] {
      assert s[|prefix|..] == f;
      RemoveAllAbsent(f, prefix);
    }
    assert RemoveAll(s, prefix) == f;
    ParseFormat04(n);
  }

  /** The generated ID differs from every value already in the column: its
      number is counted for no existing value. */
  lemma NextIdFresh(df: Frame, column: string, prefix: string, start: int)
    requires column in df.columns && PrefixSafe(prefix)
    ensures forall i :: 0 <= i < |df.rows| ==> ColumnValues(df, column)[i] != Str(NextId(df, column, prefix, start))
  {
    var vals := ColumnValues(df, column);
    var r := NextNumber(df, column, prefix, start);
    IdNumberOfGenerated(prefix, r);
    assert r !in Counted(vals, prefix);
    CountedIff(vals, prefix, r);
    assert forall i :: 0 <= i < |vals| ==> IdNumber(vals[i], prefix) != Some(r);
  }

  /** Appending one value to a column counts it after the others. */
  lemma CountedSnoc(vals: seq<Value>, v: Value, prefix: string)
    ensures Counted(vals + [v], prefix) ==
      Counted(vals, prefix) + (match IdNumber(v, prefix) case Some(n) => [n] case None => [])
  {
    assert (vals + [v])[..|vals|] == vals;
  }

  lemma MaxOfSnocAbove(ids: seq<int>, r: int)
    requires forall x :: x in ids ==> x < r
    ensures MaxOf(ids + [r]) == r
  {
    var m := MaxOf(ids + [r]);
    assert m in ids + [r];
  }

  /** The column of a snapshot with one record appended. */
  lemma ColumnValuesSnoc(df: Frame, row: Record, column: string)
    ensures ColumnValues(Frame(df.columns, df.rows + [row]), column) == ColumnValues(df, column) + [Get(row, column, Null)]
  {
  }

  /** Storing a record under the generated ID makes the next generated
      number one larger: IDs are handed out in sequence. */
  lemma NextIdAdvances(df: Frame, column: string, prefix: string, start: int, row: Record)
    requires column in df.columns && PrefixSafe(prefix)
    requires Get(row, column, Null) == Str(NextId(df, column, prefix, start))
    ensures NextNumber(Frame(df.columns, df.rows + [row]), column, prefix, start) == NextNumber(df, column, prefix, start) + 1
  {
    var df' := Frame(df.columns, df.rows + [row]);
    var r := NextNumber(df, column, prefix, start);
    var id := Str(NextId(df, column, prefix, start));
    var ids := Counted(ColumnValues(df, column), prefix);
    ColumnValuesSnoc(df, row, column);
    IdNumberOfGenerated(prefix, r);
    CountedSnoc(ColumnValues(df, column), id, prefix);
    assert Counted(ColumnValues(df', column), prefix) == ids + [r];
    assert forall x :: x in ids ==> x < r by {
      if df.IsEmpty() {
        assert ColumnValues(df, column) == [];
      }
    }
    MaxOfSnocAbove(ids, r);
  }

  // ===== validate_required_fields =====

  /** `field_names.get(field, field)`. */
  function DisplayName(names: map<string, string>, field: string): string {
    if field in names then names[field] else field
  }

  function RequiredMessage(fieldName: string): string {
    "Campo '" + fieldName + "' é obrigatório"
  }

  /** A required field counts as missing when absent, `None`, or a string
      that is blank after `strip()`; any other present value passes. */
  predicate Missing(data: Record, field: string) {
    field !in data || data[field] == Null || (data[field].Str? && Strip(data[field].s) == [])
  }

  /** The messages of `validate_required_fields`, in field order. */
  function RequiredErrors(data: Record, fields: seq<string>, names: map<string, string>): seq<string> {
    if fields == [] then []
    else
      var f := fields[|fields| - 1];
      RequiredErrors(data, fields[..|fields| - 1], names) + (if Missing(data, f) then [RequiredMessage(DisplayName(names, f))] else [])
  }

  method ValidateRequiredFields(data: Record, fields: seq<string>, names: map<string, string>) returns (errors: seq<string>)
    ensures errors == RequiredErrors(data, fields, names)
  {
    errors := [];
    for i := 0 to |fields|
      invariant errors == RequiredErrors(data, fields[..i], names)
    {
      assert fields[..i + 1][..i] == fields[..i];
      var field := fields[i];
      var fieldName := DisplayName(names, field);
      if field !in data {
        errors := errors + [RequiredMessage(fieldName)];
      } else if data[field].Str? && Strip(data[field].s) == [] {
        errors := errors + [RequiredMessage(fieldName)];
      } else if data[field] == Null {
        errors := errors + [RequiredMessage(fieldName)];
      }
    }
    assert fields[..|fields|] == fields;
  }

  /** One message per missing field and none for a present one: the list
      is empty exactly when no required field is missing, and a field's
      message appears exactly when it is missing. */
  lemma {:induction false} RequiredErrorsIff(data: Record, fields: seq<string>, names: map<string, string>)
    ensures |RequiredErrors(data, fields, names)| <= |fields|
    ensures RequiredErrors(data, fields, names) == [] <==> forall i :: 0 <= i < |fields| ==> !Missing(data, fields[i])
    ensures forall i :: 0 <= i < |fields| && Missing(data, fields[i]) ==>
      RequiredMessage(DisplayName(names, fields[i])) in RequiredErrors(data, fields, names)
  {
    if fields != [] {
      var init := fields[..|fields| - 1];
      RequiredErrorsIff(data, init, names);
      assert forall i :: 0 <= i < |init| ==> init[i] == fields[i];
    }
  }

  /** Present values other than blank strings and `None` pass, e.g. the
      integer 0 and a padded name. */
  lemma RequiredExamples()
    ensures RequiredErrors(map["Telefone" := Int(0)], ["Telefone"], map[]) == []
    ensures RequiredErrors(map["Nome" := Str(" \t")], ["Nome"], map["Nome" := "Nome Completo"]) == ["Campo 'Nome Completo' é obrigatório"]
  {
    assert ["Telefone"][..0] == [];
    assert ["Nome"][..0] == [];
    assert Strip(" \t") == [] by {
      StripEmptyIff(" \t");
    }
    var data := map["Nome" := Str(" \t")];
    assert Missing(data, "Nome");
    assert DisplayName(map["Nome" := "Nome Completo"], "Nome") == "Nome Completo";
    assert RequiredErrors(data, [], map["Nome" := "Nome Completo"]) == [];
    assert [] + [RequiredMessage("Nome Completo")] == [RequiredMessage("Nome Completo")];
    assert RequiredMessage("Nome Completo") == "Campo 'Nome Completo' é obrigatório";
    assert RequiredErrors(data, ["Nome"], map["Nome" := "Nome Completo"]) == [RequiredMessage("Nome Completo")];
  }

  // ===== validate_unique_fields =====

  /** `str(v).strip().lower()`. */
  function Canonical(v: Value): string {
    Lower(Strip(Repr(v)))
  }

  /** Whether the row's value of the field (or `''` where it has none)
      matches the new value once both are canonical. */
  predicate Clashes(row: Record, field: string, v: Value) {
    Canonical(Cell(row, field)) == Canonical(v)
  }

  /** `str(row.get(field, '')).strip().lower()` for every row, in order. */
  function CanonicalCells(df: Frame, field: string): (r: seq<string>)
    ensures |r| == |df.rows|
  {
    seq(|df.rows|, k requires 0 <= k < |df.rows| => Canonical(Cell(df.rows[k], field)))
  }

  /** Some position of `keys` other than the excluded one holds `key`. */
  predicate OccursOther(keys: seq<string>, key: string, exclude: Option<int>) {
    exists k :: 0 <= k < |keys| && exclude != Some(k) && keys[k] == key
  }

  /** Some row other than the excluded position clashes. */
  predicate HasClash(df: Frame, field: string, v: Value, exclude: Option<int>) {
    OccursOther(CanonicalCells(df, field), Canonical(v), exclude)
  }

  /** A clash is a row, other than the excluded one, whose value matches. */
  lemma HasClashIff(df: Frame, field: string, v: Value, exclude: Option<int>)
    ensures HasClash(df, field, v, exclude) <==>
      exists i :: 0 <= i < |df.rows| && exclude != Some(i) && Clashes(df.rows[i], field, v)
  {
    var cells := CanonicalCells(df, field);
    assert forall i :: 0 <= i < |df.rows| ==> (cells[i] == Canonical(v) <==> Clashes(df.rows[i], field, v));
  }

  function UniqueMessage(v: Value, fieldName: string): string {
    "O valor '" + Repr(v) + "' já está em uso para o campo '" + fieldName + "'"
  }

  /** The messages of `validate_unique_fields`: one for each field of the
      data whose value clashes with some non-excluded row. */
  function UniqueErrors(df: Frame, data: Record, fields: seq<string>, exclude: Option<int>, names: map<string, string>): seq<string> {
    if fields == [] then []
    else
      var f := fields[|fields| - 1];
      UniqueErrors(df, data, fields[..|fields| - 1], exclude, names)
        + (if f in data && HasClash(df, f, data[f], exclude) then [UniqueMessage(data[f], DisplayName(names, f))] else [])
  }

  method ValidateUniqueFields(df: Frame, data: Record, fields: seq<string>, exclude: Option<int>, names: map<string, string>)
    returns (errors: seq<string>)
    ensures errors == UniqueErrors(df, data, fields, exclude, names)
  {
    errors := [];
    for i := 0 to |fields|
      invariant errors == UniqueErrors(df, data, fields[..i], exclude, names)
    {
      assert fields[..i + 1][..i] == fields[..i];
      var field := fields[i];
      if field !in data {
        continue;
      }
      var fieldName := DisplayName(names, field);
      var clash := FindClash(df, field, data[field], exclude);
      if clash {
        errors := errors + [UniqueMessage(data[field], fieldName)];
      }
    }
    assert fields[..|fields|] == fields;
  }

  /** The scan over the rows of `validate_unique_fields`, which compares
      the canonical new value with each row's, skips the excluded position
      and stops at the first clash. */
  method FindClash(df: Frame, field: string, v: Value, exclude: Option<int>) returns (found: bool)
    ensures found == HasClash(df, field, v, exclude)
  {
    var newValue := Canonical(v);
    found := FindOther(CanonicalCells(df, field), newValue, exclude);
  }

  method FindOther(keys: seq<string>, key: string, exclude: Option<int>) returns (found: bool)
    ensures found == OccursOther(keys, key, exclude)
  {
    var j := 0;
    while j < |keys|
      invariant 0 <= j <= |keys|
      invariant forall k :: 0 <= k < j ==> exclude == Some(k) || keys[k] != key
    {
      if exclude.Some? && j == exclude.value {
        j := j + 1;
        continue;
      }
      if keys[j] == key {
        return true;
      }
      j := j + 1;
    }
    return false;
  }

  /** Whether a field of the data clashes with some non-excluded row. */
  function ClashTest(df: Frame, data: Record, exclude: Option<int>): string -> bool {
    f => f in data && HasClash(df, f, data[f], exclude)
  }

  /** No element of `xs` is `bad`. */
  predicate NoneOf<T>(xs: seq<T>, bad: T -> bool) {
    forall i :: 0 <= i < |xs| ==> !bad(xs[i])
  }

  lemma NoneOfSnoc<T>(xs: seq<T>, bad: T -> bool)
    requires xs != []
    ensures NoneOf(xs, bad) <==> NoneOf(xs[..|xs| - 1], bad) && !bad(xs[|xs| - 1])
  {
    var init := xs[..|xs| - 1];
    assert forall i :: 0 <= i < |init| ==> init[i] == xs[i];
  }

  /** No field of the data, among `fields`, clashes with a non-excluded row. */
  predicate FieldsClear(df: Frame, data: Record, fields: seq<string>, exclude: Option<int>) {
    NoneOf(fields, ClashTest(df, data, exclude))
  }

  /** At most one message per field, none for a field the data lacks, and
      none at all exactly when no field of the data clashes. */
  lemma {:induction false} UniqueErrorsIff(df: Frame, data: Record, fields: seq<string>, exclude: Option<int>, names: map<string, string>)
    ensures |UniqueErrors(df, data, fields, exclude, names)| <= |fields|
    ensures UniqueErrors(df, data, fields, exclude, names) == [] <==> FieldsClear(df, data, fields, exclude)
  {
    if fields != [] {
      var init := fields[..|fields| - 1];
      var f := fields[|fields| - 1];
      UniqueErrorsIff(df, data, init, exclude, names);
      NoneOfSnoc(fields, ClashTest(df, data, exclude));
      var bad := f in data && HasClash(df, f, data[f], exclude);
      var extra := if bad then [UniqueMessage(data[f], DisplayName(names, f))] else [];
      assert UniqueErrors(df, data, fields, exclude, names) == UniqueErrors(df, data, init, exclude, names) + extra;
    }
  }

  /** The excluded row never causes a message: a record compared against a
      snapshot that holds only itself at the excluded position passes. */
  lemma UniqueExcludesOwnRow(columns: seq<string>, row: Record, data: Record, fields: seq<string>, names: map<string, string>)
    ensures UniqueErrors(Frame(columns, [row]), data, fields, Some(0), names) == []
  {
    var df := Frame(columns, [row]);
    UniqueErrorsIff(df, data, fields, Some(0), names);
  }

  /** Case and surrounding whitespace do not make a value unique. */
  lemma UniqueIgnoresCaseAndSpaces()
    ensures HasClash(Frame(["Nome"], [map["Nome" := Str(" ana silva ")]]), "Nome", Str("Ana Silva"), None)
  {
    var df := Frame(["Nome"], [map["Nome" := Str(" ana silva ")]]);
    var cells := CanonicalCells(df, "Nome");
    assert cells[0] == Canonical(Str(" ana silva "));
    CanonicalOfPadded();
    CanonicalOfTitled();
    assert cells[0] == Canonical(Str("Ana Silva"));
  }

  lemma CanonicalOfPadded()
    ensures Canonical(Str(" ana silva ")) == "ana silva"
  {
    var s := " ana silva ";
    assert " " + "ana silva" + " " == s;
    StripOfPadded(" ", "ana silva", " ");
    LowerOfLower("ana silva");
  }

  lemma CanonicalOfTitled()
    ensures Canonical(Str("Ana Silva")) == "ana silva"
  {
    var s := "Ana Silva";
    var none: string := [];
    assert none + s + none == s;
    StripOfPadded(none, s, none);
    LowerOfTitled();
  }

  lemma LowerOfTitled()
    ensures Lower("Ana Silva") == "ana silva"
  {
    var s, t := "Ana Silva", "ana silva";
    forall i | 0 <= i < 9
      ensures Lower(s)[i] == t[i]
    {
      if i == 0 || i == 4 {
        assert IsUpperLatin(s[i]);
      } else {
        assert !IsUpperLatin(s[i]) && s[i] == t[i];
      }
    }
  }

  /** A string with no upper-case letter is its own lower-case form. */
  lemma LowerOfLower(s: string)
    requires forall i :: 0 <= i < |s| ==> !IsUpperLatin(s[i])
    ensures Lower(s) == s
  {
  }

  // ===== validate_custom_rules =====

  function OverlapMessage(rule: ConflictRule): string {
    if rule.message.Some? then rule.message.value else DEFAULT_OVERLAP_MESSAGE
  }

  /** `resource_field.replace('_', ' ').title()`. */
  function ResourceLabel(field: string): string {
    Title(ReplaceChar(field, '_', ' '))
  }

  function ConflictMessage(message: string, field: string): string {
    message + ": " + ResourceLabel(field) + " já está ocupado"
  }

  /** The rule is checked only when it names a day, a start and an end
      field and the data holds all three. */
  predicate RuleApplies(rule: ConflictRule, data: Record) {
    && rule.dayField.Some? && rule.startField.Some? && rule.endField.Some?
    && rule.dayField.value in data && rule.startField.value in data && rule.endField.value in data
  }

  /** `new_start < existing_end and new_end > existing_start`, evaluated left
      to right: the second comparison is made only when the first holds,
      and a comparison between values of different kinds raises. */
  function TimesOverlap(row: Record, newStart: Value, newEnd: Value, startField: string, endField: string): Checked<bool> {
    match PyLess(newStart, Get(row, endField, Null))
    case Raised => Raised
    case Done(first) => if first then PyLess(Get(row, startField, Null), newEnd) else Done(false)
  }

  /** One message for each resource field whose value the data shares with
      the row. */
  function ResourceMessages(row: Record, data: Record, fields: seq<string>, message: string): (r: seq<string>)
    ensures |r| <= |fields|
  {
    if fields == [] then []
    else
      var f := fields[|fields| - 1];
      ResourceMessages(row, data, fields[..|fields| - 1], message)
        + (if f in data && data[f] == Get(row, f, Null) then [ConflictMessage(message, f)] else [])
  }

  /** A resource field yields its message exactly when the data holds it
      with the row's value, and every message names a resource field. */
  lemma {:induction false} ResourceMessagesIff(row: Record, data: Record, fields: seq<string>, message: string)
    ensures forall f :: f in fields && f in data && data[f] == Get(row, f, Null) ==>
      ConflictMessage(message, f) in ResourceMessages(row, data, fields, message)
    ensures forall i :: 0 <= i < |ResourceMessages(row, data, fields, message)| ==>
      exists f :: f in fields && ResourceMessages(row, data, fields, message)[i] == ConflictMessage(message, f)
  {
    if fields != [] {
      var init := fields[..|fields| - 1];
      var last := fields[|fields| - 1];
      ResourceMessagesIff(row, data, init, message);
      assert forall f :: f in fields ==> f in init || f == last;
      assert forall f :: f in init ==> f in fields;
      var r := ResourceMessages(row, data, fields, message);
      var ri := ResourceMessages(row, data, init, message);
      assert r == ri + (if last in data && data[last] == Get(row, last, Null) then [ConflictMessage(message, last)] else []);
      forall i | 0 <= i < |r| ensures exists f :: f in fields && r[i] == ConflictMessage(message, f) {
        if i < |ri| {
          assert r[i] == ri[i];
          var f :| f in init && ri[i] == ConflictMessage(message, f);
          assert f in fields && r[i] == ConflictMessage(message, f);
        } else {
          assert r[i] == ConflictMessage(message, last);
          assert last in fields;
        }
      }
    } else {
      assert ResourceMessages(row, data, fields, message) == [];
    }
  }

  /** The messages one existing row yields. */
  function RowConflicts(row: Record, data: Record, rule: ConflictRule): Checked<seq<string>>
    requires RuleApplies(rule, data)
  {
    var day, start, end := rule.dayField.value, rule.startField.value, rule.endField.value;
    if Get(row, day, Null) != data[day] then Done([])
    else match TimesOverlap(row, data[start], data[end], start, end)
      case Raised => Raised
      case Done(overlap) => Done(if overlap then ResourceMessages(row, data, rule.resourceFields, OverlapMessage(rule)) else [])
  }

  /** The messages of the first `n` rows, skipping the excluded position;
      raised as soon as one row raises. */
  function ConflictsUpTo(df: Frame, data: Record, rule: ConflictRule, exclude: Option<int>, n: nat): Checked<seq<string>>
    requires RuleApplies(rule, data) && n <= |df.rows|
  {
    if n == 0 then Done([])
    else match ConflictsUpTo(df, data, rule, exclude, n - 1)
      case Raised => Raised
      case Done(init) =>
        if exclude == Some(n - 1) then Done(init)
        else match RowConflicts(df.rows[n - 1], data, rule)
          case Raised => Raised
          case Done(more) => Done(init + more)
  }

  /** `validate_custom_rules`. */
  function CustomErrors(df: Frame, data: Record, rules: Option<ConflictRule>, exclude: Option<int>): Checked<seq<string>> {
    if rules.None? || !RuleApplies(rules.value, data) then Done([])
    else ConflictsUpTo(df, data, rules.value, exclude, |df.rows|)
  }

  method ValidateCustomRules(df: Frame, data: Record, rules: Option<ConflictRule>, exclude: Option<int>)
    returns (r: Checked<seq<string>>)
    ensures r == CustomErrors(df, data, rules, exclude)
  {
    if rules.None? || !RuleApplies(rules.value, data) {
      return Done([]);
    }
    var rule := rules.value;
    var day, start, end := rule.dayField.value, rule.startField.value, rule.endField.value;
    var newDay, newStart, newEnd := data[day], data[start], data[end];
    var errors: seq<string> := [];
    for i := 0 to |df.rows|
      invariant ConflictsUpTo(df, data, rule, exclude, i) == Done(errors)
    {
      if exclude.Some? && i == exclude.value {
        continue;
      }
      var row := df.rows[i];
      if Get(row, day, Null) == newDay {
        var overlap := TimesOverlap(row, newStart, newEnd, start, end);
        if overlap.Raised? {
          ConflictsRaisedStays(df, data, rule, exclude, i + 1, |df.rows|);
          return Raised;
        }
        if overlap.value {
          var more := CollectResourceClashes(row, data, rule.resourceFields, OverlapMessage(rule));
          errors := errors + more;
        } else {
          assert errors + [] == errors;
        }
      } else {
        assert errors + [] == errors;
      }
    }
    r := Done(errors);
  }

  /** The inner loop over the resource fields. */
  method CollectResourceClashes(row: Record, data: Record, fields: seq<string>, message: string) returns (msgs: seq<string>)
    ensures msgs == ResourceMessages(row, data, fields, message)
  {
    msgs := [];
    for j := 0 to |fields|
      invariant msgs == ResourceMessages(row, data, fields[..j], message)
    {
      assert fields[..j + 1][..j] == fields[..j];
      var f := fields[j];
      if f in data && data[f] == Get(row, f, Null) {
        msgs := msgs + [ConflictMessage(message, f)];
      }
    }
    assert fields[..|fields|] == fields;
  }

  lemma {:induction false} ConflictsRaisedStays(df: Frame, data: Record, rule: ConflictRule, exclude: Option<int>, k: nat, n: nat)
    requires RuleApplies(rule, data) && k <= n <= |df.rows|
    requires ConflictsUpTo(df, data, rule, exclude, k) == Raised
    ensures ConflictsUpTo(df, data, rule, exclude, n) == Raised
    decreases n
  {
    if n > k {
      ConflictsRaisedStays(df, data, rule, exclude, k, n - 1);
    }
  }

  /** No message and no exception unless some non-excluded row yields one. */
  lemma {:induction false} ConflictsQuiet(df: Frame, data: Record, rule: ConflictRule, exclude: Option<int>, n: nat)
    requires RuleApplies(rule, data) && n <= |df.rows|
    requires forall i :: 0 <= i < n && exclude != Some(i) ==> RowConflicts(df.rows[i], data, rule) == Done([])
    ensures ConflictsUpTo(df, data, rule, exclude, n) == Done([])
  {
    if n > 0 {
      ConflictsQuiet(df, data, rule, exclude, n - 1);
      var none: seq<string> := [];
      assert none + none == none;
    }
  }

  /** Every message a non-excluded row yields is reported. */
  lemma {:induction false} ConflictsComplete(df: Frame, data: Record, rule: ConflictRule, exclude: Option<int>, n: nat, i: nat)
    requires RuleApplies(rule, data) && n <= |df.rows| && i < n && exclude != Some(i)
    requires ConflictsUpTo(df, data, rule, exclude, n).Done? && RowConflicts(df.rows[i], data, rule).Done?
    ensures forall m :: m in RowConflicts(df.rows[i], data, rule).value ==> m in ConflictsUpTo(df, data, rule, exclude, n).value
  {
    var prev := ConflictsUpTo(df, data, rule, exclude, n - 1);
    assert prev.Done?;
    if i < n - 1 {
      ConflictsComplete(df, data, rule, exclude, n - 1, i);
    }
    assert forall m :: m in prev.value ==> m in ConflictsUpTo(df, data, rule, exclude, n).value;
  }

  /** Every message names one of the resource fields, and each row adds at
      most one message per resource field. */
  lemma {:induction false} ConflictsBounded(df: Frame, data: Record, rule: ConflictRule, exclude: Option<int>, n: nat)
    requires RuleApplies(rule, data) && n <= |df.rows|
    ensures ConflictsUpTo(df, data, rule, exclude, n).Done? ==>
      var errs := ConflictsUpTo(df, data, rule, exclude, n).value;
      && |errs| <= n * |rule.resourceFields|
      && forall i :: 0 <= i < |errs| ==> exists f :: f in rule.resourceFields && errs[i] == ConflictMessage(OverlapMessage(rule), f)
  {
    if n > 0 {
      ConflictsBounded(df, data, rule, exclude, n - 1);
      var r := ConflictsUpTo(df, data, rule, exclude, n);
      if r.Done? {
        var init := ConflictsUpTo(df, data, rule, exclude, n - 1).value;
        var errs := r.value;
        assert errs == init || exists more :: errs == init + more && RowConflicts(df.rows[n - 1], data, rule) == Done(more);
        if errs != init {
          var more :| errs == init + more && RowConflicts(df.rows[n - 1], data, rule) == Done(more);
          ResourceMessagesIff(df.rows[n - 1], data, rule.resourceFields, OverlapMessage(rule));
          assert more == [] || more == ResourceMessages(df.rows[n - 1], data, rule.resourceFields, OverlapMessage(rule));
          assert |more| <= |rule.resourceFields|;
          assert (n - 1) * |rule.resourceFields| + |rule.resourceFields| == n * |rule.resourceFields|;
          forall i | 0 <= i < |errs|
            ensures exists f :: f in rule.resourceFields && errs[i] == ConflictMessage(OverlapMessage(rule), f)
          {
            if i >= |init| { assert errs[i] == more[i - |init|]; } else { assert errs[i] == init[i]; }
          }
        } else {
          assert (n - 1) * |rule.resourceFields| <= n * |rule.resourceFields|;
        }
      }
    }
  }

  /** Touching intervals are no conflict: a class that starts exactly when
      the stored one ends, or ends exactly when it starts, yields nothing. */
  lemma BackToBackQuiet(row: Record, data: Record, rule: ConflictRule)
    requires RuleApplies(rule, data)
    requires var start, end := rule.startField.value, rule.endField.value;
      && data[start].Str? && data[end].Str? && Get(row, start, Null).Str? && Get(row, end, Null).Str?
      && (data[start] == Get(row, end, Null) || data[end] == Get(row, start, Null))
    ensures RowConflicts(row, data, rule) == Done([])
  {
    var start, end := rule.startField.value, rule.endField.value;
    PyLessIrreflexive(data[start]);
    PyLessIrreflexive(data[end]);
    assert TimesOverlap(row, data[start], data[end], start, end) == Done(false);
  }

  /** `HH:MM` with two digits each, as the schedule sheets store times. */
  function Clock2(n: nat): string
    requires n < 100
  {
    [DigitChar(n / 10), DigitChar(n % 10)]
  }

  function HHMM(t: Validation.TimeValue): string
    requires Validation.IsValidTime(t)
  {
    Clock2(t.hour) + ":" + Clock2(t.minute)
  }

  lemma {:induction false} StrLessConcat(p: string, q: string, r: string, s: string)
    requires |p| == |q|
    ensures StrLess(p + r, q + s) <==> StrLess(p, q) || (p == q && StrLess(r, s))
  {
    if p == [] {
      assert p + r == r && q + s == s;
    } else {
      assert (p + r)[1..] == p[1..] + r;
      assert (q + s)[1..] == q[1..] + s;
      StrLessConcat(p[1..], q[1..], r, s);
      if p[0] == q[0] && p[1..] == q[1..] {
        assert p == [p[0]] + p[1..];
        assert q == [q[0]] + q[1..];
      }
    }
  }

  lemma Clock2Less(a: nat, b: nat)
    requires a < 100 && b < 100
    ensures StrLess(Clock2(a), Clock2(b)) <==> a < b
    ensures Clock2(a) == Clock2(b) <==> a == b
  {
    StrLessConcat([DigitChar(a / 10)], [DigitChar(b / 10)], [DigitChar(a % 10)], [DigitChar(b % 10)]);
    assert Clock2(a) == [DigitChar(a / 10)] + [DigitChar(a % 10)];
    assert Clock2(b) == [DigitChar(b / 10)] + [DigitChar(b % 10)];
    if Clock2(a) == Clock2(b) {
      assert Clock2(a)[0] == Clock2(b)[0] && Clock2(a)[1] == Clock2(b)[1];
    }
  }

  /** On `HH:MM` strings the raw string order is the order of the times. */
  lemma StrLessHHMM(a: Validation.TimeValue, b: Validation.TimeValue)
    requires Validation.IsValidTime(a) && Validation.IsValidTime(b)
    ensures StrLess(HHMM(a), HHMM(b)) <==> Validation.Minutes(a) < Validation.Minutes(b)
  {
    StrLessConcat(Clock2(a.hour), Clock2(b.hour), ":" + Clock2(a.minute), ":" + Clock2(b.minute));
    StrLessConcat(":", ":", Clock2(a.minute), Clock2(b.minute));
    StrLessIrreflexive(":");
    Clock2Less(a.hour, b.hour);
    Clock2Less(a.minute, b.minute);
    assert HHMM(a) == Clock2(a.hour) + (":" + Clock2(a.minute));
    assert HHMM(b) == Clock2(b.hour) + (":" + Clock2(b.minute));
  }

  /** With every time stored as `HH:MM`, the raw comparison of
      `validate_custom_rules` decides the same overlap as
      `check_time_overlap` on the times themselves. */
  lemma TimesOverlapAgrees(row: Record, s1: Validation.TimeValue, e1: Validation.TimeValue,
                           s2: Validation.TimeValue, e2: Validation.TimeValue, startField: string, endField: string)
    requires Validation.IsValidTime(s1) && Validation.IsValidTime(e1)
    requires Validation.IsValidTime(s2) && Validation.IsValidTime(e2)
    requires Get(row, startField, Null) == Str(HHMM(s2)) && Get(row, endField, Null) == Str(HHMM(e2))
    ensures TimesOverlap(row, Str(HHMM(s1)), Str(HHMM(e1)), startField, endField) == Done(Validation.CheckTimeOverlap(s1, e1, s2, e2))
  {
    StrLessHHMM(s1, e2);
    StrLessHHMM(s2, e1);
  }

  // ===== validate_data =====

  /** `validate_data`: required-field, then uniqueness, then custom-rule
      messages; display names are not passed, so fields are named by key. */
  function ValidationErrors(config: SheetConfig, data: Record, df: Frame, exclude: Option<int>): Checked<seq<string>> {
    match CustomErrors(df, data, config.conflictRules, exclude)
    case Raised => Raised
    case Done(custom) =>
      Done(RequiredErrors(data, config.requiredColumns, map[])
        + UniqueErrors(df, data, config.uniqueColumns, exclude, map[])
        + custom)
  }

  method ValidateData(config: SheetConfig, data: Record, df: Frame, exclude: Option<int>) returns (r: Checked<seq<string>>)
    ensures r == ValidationErrors(config, data, df, exclude)
  {
    var required := ValidateRequiredFields(data, config.requiredColumns, map[]);
    var unique := ValidateUniqueFields(df, data, config.uniqueColumns, exclude, map[]);
    var custom := ValidateCustomRules(df, data, config.conflictRules, exclude);
    if custom.Raised? {
      return Raised;
    }
    r := Done(required + unique + custom.value);
  }

  /** The data passes exactly when no required field is missing, no unique
      field clashes and the custom rules yield nothing. */
  lemma ValidationErrorsEmptyIff(config: SheetConfig, data: Record, df: Frame, exclude: Option<int>)
    ensures ValidationErrors(config, data, df, exclude) == Done([]) <==>
      && (forall i :: 0 <= i < |config.requiredColumns| ==> !Missing(data, config.requiredColumns[i]))
      && (forall i :: 0 <= i < |config.uniqueColumns| && config.uniqueColumns[i] in data ==>
            !HasClash(df, config.uniqueColumns[i], data[config.uniqueColumns[i]], exclude))
      && CustomErrors(df, data, config.conflictRules, exclude) == Done([])
  {
    RequiredErrorsIff(data, config.requiredColumns, map[]);
    UniqueErrorsIff(df, data, config.uniqueColumns, exclude, map[]);
    var req := RequiredErrors(data, config.requiredColumns, map[]);
    var uniq := UniqueErrors(df, data, config.uniqueColumns, exclude, map[]);
    match CustomErrors(df, data, config.conflictRules, exclude)
    case Raised =>
    case Done(custom) =>
      assert |req + uniq + custom| == |req| + |uniq| + |custom|;
      if req == [] && uniq == [] && custom == [] {
        assert req + uniq + custom == [];
      }
  }

  // ===== create_record =====

  /** The record to store: the ID column is filled with a generated ID
      (numbered from 1) when it is absent or falsy. */
  function WithId(data: Record, config: SheetConfig, df: Frame): (d: Record)
    ensures d.Keys == data.Keys + {config.idColumn}
    ensures forall k :: k in data && k != config.idColumn ==> d[k] == data[k]
    ensures config.idColumn in data && Truthy(data[config.idColumn]) ==> d == data
    ensures !(config.idColumn in data && Truthy(data[config.idColumn])) ==>
      d[config.idColumn] == Str(NextId(df, config.idColumn, config.idPrefix, 1))
  {
    if config.idColumn !in data || !Truthy(data[config.idColumn]) then
      data[config.idColumn := Str(NextId(df, config.idColumn, config.idPrefix, 1))]
    else data
  }

  /** `[data.get(col, '') for col in columns]`. */
  function RowCells(columns: seq<string>, data: Record): (r: seq<Value>)
    ensures |r| == |columns| && forall i :: 0 <= i < |columns| ==> r[i] == Get(data, columns[i], Str(""))
  {
    seq(|columns|, i requires 0 <= i < |columns| => Get(data, columns[i], Str("")))
  }

  /** The body of `create_record` with the row laid out by `columns`:
      validate, fill in the ID, append. The written code and its
      correction differ only in the column list they pass. */
  method CreateRecordUnder(sheet: Sheet, config: SheetConfig, data: Record, df: Frame, columns: seq<string>)
    returns (created: bool, stored: Record)
    modifies sheet
    ensures sheet.header == old(sheet.header)
    ensures created <==> ValidationErrors(config, data, df, None) == Done([])
    ensures created ==> stored == WithId(data, config, df) && sheet.rows == old(sheet.rows) + [RowCells(columns, stored)]
    ensures !created ==> stored == data && sheet.rows == old(sheet.rows)
  {
    stored := data;
    var errors := ValidateData(config, data, df, None);
    if errors != Done([]) {
      return false, data;
    }
    if config.idColumn !in data || !Truthy(data[config.idColumn]) {
      var id := GenerateUniqueId(df, config.idColumn, config.idPrefix, 1);
      stored := data[config.idColumn := Str(id)];
    }
    sheet.AppendRow(RowCells(columns, stored));
    created := true;
  }

  /** `create_record` as written: the appended row follows the snapshot's
      columns, which are empty when the store holds only its header. */
  method CreateRecordAsWritten(sheet: Sheet, config: SheetConfig, data: Record, df: Frame) returns (created: bool, stored: Record)
    modifies sheet
    ensures sheet.header == old(sheet.header)
    ensures created <==> ValidationErrors(config, data, df, None) == Done([])
    ensures created ==> stored == WithId(data, config, df) && sheet.rows == old(sheet.rows) + [RowCells(df.columns, stored)]
    ensures !created ==> stored == data && sheet.rows == old(sheet.rows)
  {
    created, stored := CreateRecordUnder(sheet, config, data, df, df.columns);
  }

  /** `create_record` with the row laid out by the store's header, so that
      the first record of a sheet is kept as well. */
  method CreateRecord(sheet: Sheet, config: SheetConfig, data: Record, df: Frame) returns (created: bool, stored: Record)
    modifies sheet
    ensures sheet.header == old(sheet.header)
    ensures created <==> ValidationErrors(config, data, df, None) == Done([])
    ensures created ==> stored == WithId(data, config, df) && sheet.rows == old(sheet.rows) + [RowCells(sheet.header, stored)]
    ensures !created ==> stored == data && sheet.rows == old(sheet.rows)
  {
    created, stored := CreateRecordUnder(sheet, config, data, df, sheet.header);
  }

  /** On a store holding only its header the written row has no cells, so
      the record read back is empty in every column, its ID included. */
  lemma CreateOnHeaderOnlyLosesRecord(header: seq<string>, stored: Record)
    requires header != []
    ensures RowCells(SnapshotOf(header, []).columns, stored) == []
    ensures SnapshotOf(header, [RowCells(SnapshotOf(header, []).columns, stored)]).rows ==
      [map c | c in header :: Str("")]
  {
    var empty := RecordOf(header, []);
    assert empty == map c | c in header :: Str("");
  }

  /** The record written by `CreateRecord` reads back with the stored value
      under every header column; on a store that already holds records it
      writes exactly the row `create_record` writes. */
  lemma CreateRecordReadsBack(header: seq<string>, rows: seq<seq<Value>>, stored: Record)
    requires header != []
    ensures SnapshotOf(header, rows + [RowCells(header, stored)]).rows ==
      SnapshotOf(header, rows).rows + [map c | c in header :: Get(stored, c, Str(""))]
    ensures rows != [] ==> RowCells(SnapshotOf(header, rows).columns, stored) == RowCells(header, stored)
  {
    SnapshotAfterAppend(header, rows, RowCells(header, stored));
    RecordOfBuiltRow(header, stored);
    assert RowCells(header, stored) == seq(|header|, i requires 0 <= i < |header| => Get(stored, header[i], Str("")));
  }

  // ===== update_record =====

  /** The cell `update_record` writes under a column: the data's value, or
      the snapshot's value at the position. */
  function UpdatedCell(df: Frame, index: int, data: Record, column: string): Value {
    if column in data then data[column]
    else if 0 <= index < |df.rows| then Cell(df.rows[index], column)
    else Null
  }

  /** `row_data` of `update_record`: raised (`KeyError` from `loc`) when the
      position is not in the snapshot and some column must be read from it. */
  function UpdatedCells(df: Frame, index: int, data: Record): (r: Checked<seq<Value>>)
    ensures r.Raised? <==> !(0 <= index < |df.rows|) && exists k :: 0 <= k < |df.columns| && df.columns[k] !in data
    ensures r.Done? ==> |r.value| == |df.columns|
  {
    if !(0 <= index < |df.rows|) && exists k :: 0 <= k < |df.columns| && df.columns[k] !in data then Raised
    else Done(seq(|df.columns|, k requires 0 <= k < |df.columns| => UpdatedCell(df, index, data, df.columns[k])))
  }

  method UpdateRecord(sheet: Sheet, config: SheetConfig, index: int, data: Record, df: Frame) returns (ok: bool)
    modifies sheet
    ensures sheet.header == old(sheet.header)
    ensures ok <==> && ValidationErrors(config, data, df, Some(index)) == Done([])
                    && UpdatedCells(df, index, data).Done?
                    && 0 <= index < |old(sheet.rows)|
    ensures ok ==> sheet.rows == old(sheet.rows)[index := Overwrite(old(sheet.rows)[index], UpdatedCells(df, index, data).value)]
    ensures !ok ==> sheet.rows == old(sheet.rows)
  {
    var errors := ValidateData(config, data, df, Some(index));
    if errors != Done([]) {
      return false;
    }
    var columns := df.columns;
    var cells: seq<Value> := [];
    for k := 0 to |columns|
      invariant |cells| == k
      invariant forall j :: 0 <= j < k ==> cells[j] == UpdatedCell(df, index, data, columns[j])
      invariant !(0 <= index < |df.rows|) ==> forall j :: 0 <= j < k ==> columns[j] in data
    {
      var col := columns[k];
      if col in data {
        cells := cells + [data[col]];
      } else {
        if !(0 <= index < |df.rows|) {
          return false;
        }
        cells := cells + [Cell(df.rows[index], col)];
      }
    }
    assert !(0 <= index < |df.rows|) ==> forall j :: 0 <= j < |columns| ==> columns[j] in data;
    assert cells == seq(|df.columns|, k requires 0 <= k < |df.columns| => UpdatedCell(df, index, data, df.columns[k]));
    assert UpdatedCells(df, index, data) == Done(cells);
    ok := sheet.UpdateRow(StorageRow(index), cells);
  }

  /** After an update from a fresh snapshot, the record at the position
      holds the data's value under each column the data names and keeps its
      old value under every other column. */
  lemma UpdateKeepsOtherColumns(header: seq<string>, rows: seq<seq<Value>>, index: nat, data: Record)
    requires header != [] && index < |rows|
    ensures var df := SnapshotOf(header, rows);
      && UpdatedCells(df, index, data).Done?
      && var after := RecordOf(header, Overwrite(rows[index], UpdatedCells(df, index, data).value));
         && after.Keys == RecordOf(header, rows[index]).Keys
         && forall c :: c in header ==> after[c] == if c in data then data[c] else RecordOf(header, rows[index])[c]
  {
    UpdatedColumn(header, rows, index, data, header[0]);
    forall c | c in header {
      UpdatedColumn(header, rows, index, data, c);
    }
  }

  lemma UpdatedColumn(header: seq<string>, rows: seq<seq<Value>>, index: nat, data: Record, c: string)
    requires header != [] && index < |rows| && c in header
    ensures var df := SnapshotOf(header, rows);
      UpdatedCells(df, index, data).Done? &&
      RecordOf(header, Overwrite(rows[index], UpdatedCells(df, index, data).value))[c] ==
        if c in data then data[c] else RecordOf(header, rows[index])[c]
  {
    var df := SnapshotOf(header, rows);
    var cells := UpdatedCells(df, index, data).value;
    var w := Overwrite(rows[index], cells);
    var k := HeaderIndex(header, c);
    assert w[k] == cells[k] by { assert w[..|cells|] == cells; }
  }

  // ===== delete_record =====

  const CONFIRM_DELETE: string := "confirm_delete"

  /** `delete_record`: the first call for a position only arms the
      confirmation; a call for the armed position deletes its storage row
      and clears the confirmation when the store accepts the deletion. */
  method DeleteRecord(sheet: Sheet, index: int, session: SessionState) returns (ok: bool)
    modifies sheet, session
    ensures sheet.header == old(sheet.header)
    ensures var armed := CONFIRM_DELETE in old(session.entries) && old(session.entries)[CONFIRM_DELETE] == index;
      && (!armed ==> !ok && sheet.rows == old(sheet.rows) && session.entries == old(session.entries)[CONFIRM_DELETE := index])
      && (armed ==> (ok <==> 0 <= index < |old(sheet.rows)|))
      && (armed && ok ==>
            sheet.rows == old(sheet.rows)[..index] + old(sheet.rows)[index + 1..] &&
            session.entries == old(session.entries) - {CONFIRM_DELETE})
      && (armed && !ok ==> sheet.rows == old(sheet.rows) && session.entries == old(session.entries))
  {
    if CONFIRM_DELETE !in session.entries || session.entries[CONFIRM_DELETE] != index {
      session.Put(CONFIRM_DELETE, index);
      return false;
    }
    ok := sheet.DeleteRow(StorageRow(index));
    if ok {
      session.Remove(CONFIRM_DELETE);
    }
  }

  // ===== search_and_filter_dataframe =====

  /** `v.astype(str).str.lower()`. */
  function SearchText(v: Value): string {
    Lower(Repr(v))
  }

  predicate TextSearchOn(text: string, columns: seq<string>) {
    text != "" && columns != []
  }

  /** Some listed column of the snapshot contains the lowered text. */
  predicate TextHit(df: Frame, row: Record, text: string, columns: seq<string>) {
    exists k :: 0 <= k < |columns| && columns[k] in df.columns && Contains(SearchText(Cell(row, columns[k])), Lower(text))
  }

  /** A filter applies when its column exists and its value is not `None`. */
  predicate FilterHolds(df: Frame, row: Record, filter: (string, Value)) {
    filter.0 in df.columns && filter.1 != Null ==> Cell(row, filter.0) == filter.1
  }

  predicate Keeps(df: Frame, row: Record, text: string, columns: seq<string>, filters: seq<(string, Value)>) {
    && (TextSearchOn(text, columns) ==> TextHit(df, row, text, columns))
    && forall k :: 0 <= k < |filters| ==> FilterHolds(df, row, filters[k])
  }

  /** The positions among the first `n` that the search keeps, in order. */
  function Kept(df: Frame, text: string, columns: seq<string>, filters: seq<(string, Value)>, n: nat): (r: seq<nat>)
    requires n <= |df.rows|
    ensures forall i :: 0 <= i < |r| ==> r[i] < n
  {
    if n == 0 then []
    else Kept(df, text, columns, filters, n - 1) + (if Keeps(df, df.rows[n - 1], text, columns, filters) then [n - 1] else [])
  }

  function AllPositions(n: nat): (r: seq<nat>)
    ensures |r| == n && forall i :: 0 <= i < n ==> r[i] == i
  {
    seq(n, i requires 0 <= i < n => i)
  }

  /** `search_and_filter_dataframe`, as the original positions of the rows
      it returns. */
  function SearchResult(df: Frame, text: string, columns: seq<string>, filters: seq<(string, Value)>, limit: int, offset: int)
    : Checked<seq<nat>>
  {
    if df.IsEmpty() then Done(AllPositions(|df.rows|))
    else if TextSearchOn(text, columns) && forall k :: 0 <= k < |columns| ==> columns[k] !in df.columns then Raised
    else Done(PySlice(Kept(df, text, columns, filters, |df.rows|), offset * limit, offset * limit + limit))
  }

  lemma KeepsSnoc(df: Frame, row: Record, text: string, columns: seq<string>, filters: seq<(string, Value)>, filter: (string, Value))
    ensures Keeps(df, row, text, columns, filters + [filter]) <==>
      Keeps(df, row, text, columns, filters) && FilterHolds(df, row, filter)
  {
    var fs := filters + [filter];
    assert forall k :: 0 <= k < |fs| ==> fs[k] == if k < |filters| then filters[k] else filter;
    assert fs[|filters|] == filter;
  }

  /** Keeping only the positions whose row satisfies one more filter (a
      position past the snapshot has no row and is dropped). */
  function Restrict(df: Frame, ps: seq<nat>, filter: (string, Value)): seq<nat> {
    if ps == [] then []
    else
      var p := ps[|ps| - 1];
      Restrict(df, ps[..|ps| - 1], filter) + (if p < |df.rows| && Cell(df.rows[p], filter.0) == filter.1 then [p] else [])
  }

  lemma {:induction false} RestrictConcat(df: Frame, a: seq<nat>, b: seq<nat>, filter: (string, Value))
    ensures Restrict(df, a + b, filter) == Restrict(df, a, filter) + Restrict(df, b, filter)
    decreases |b|
  {
    if b == [] {
      assert a + b == a;
    } else {
      assert (a + b)[..|a + b| - 1] == a + b[..|b| - 1];
      RestrictConcat(df, a, b[..|b| - 1], filter);
    }
  }

  /** Applying one more filter to the kept positions is keeping under the
      longer filter list. */
  lemma {:induction false} RestrictKept(df: Frame, text: string, columns: seq<string>, filters: seq<(string, Value)>,
                                        filter: (string, Value), n: nat)
    requires n <= |df.rows| && filter.0 in df.columns && filter.1 != Null
    ensures Restrict(df, Kept(df, text, columns, filters, n), filter) == Kept(df, text, columns, filters + [filter], n)
  {
    if n > 0 {
      var fs := filters + [filter];
      RestrictKept(df, text, columns, filters, filter, n - 1);
      var init := Kept(df, text, columns, filters, n - 1);
      var keep := Keeps(df, df.rows[n - 1], text, columns, filters);
      var keep2 := Keeps(df, df.rows[n - 1], text, columns, fs);
      var last: seq<nat> := if keep then [n - 1] else [];
      var last2: seq<nat> := if keep2 then [n - 1] else [];
      assert Kept(df, text, columns, filters, n) == init + last;
      assert Kept(df, text, columns, fs, n) == Kept(df, text, columns, fs, n - 1) + last2;
      KeepsSnoc(df, df.rows[n - 1], text, columns, filters, filter);
      RestrictStep(df, init, Kept(df, text, columns, fs, n - 1), n - 1, filter, keep, keep2);
    }
  }

  /** One more position, restricted: the step of `RestrictKept`. */
  lemma RestrictStep(df: Frame, init: seq<nat>, restricted: seq<nat>, p: nat, filter: (string, Value), keep: bool, keep2: bool)
    requires p < |df.rows| && Restrict(df, init, filter) == restricted
    requires keep2 <==> keep && Cell(df.rows[p], filter.0) == filter.1
    ensures Restrict(df, init + (if keep then [p] else []), filter) == restricted + (if keep2 then [p] else [])
  {
    RestrictConcat(df, init, if keep then [p] else [], filter);
    if keep {
      RestrictSingle(df, p, filter);
    }
  }

  lemma RestrictSingle(df: Frame, p: nat, filter: (string, Value))
    requires p < |df.rows|
    ensures Restrict(df, [p], filter) == if Cell(df.rows[p], filter.0) == filter.1 then [p] else []
  {
    assert [p][..0] == [];
  }

  /** A filter whose column is absent or whose value is `None` changes nothing. */
  lemma {:induction false} KeptIgnoresFilter(df: Frame, text: string, columns: seq<string>, filters: seq<(string, Value)>,
                                             filter: (string, Value), n: nat)
    requires n <= |df.rows| && !(filter.0 in df.columns && filter.1 != Null)
    ensures Kept(df, text, columns, filters, n) == Kept(df, text, columns, filters + [filter], n)
  {
    if n > 0 {
      KeptIgnoresFilter(df, text, columns, filters, filter, n - 1);
      KeepsSnoc(df, df.rows[n - 1], text, columns, filters, filter);
    }
  }

  method SearchAndFilter(df: Frame, text: string, columns: seq<string>, filters: seq<(string, Value)>, limit: int, offset: int)
    returns (r: Checked<seq<nat>>)
    ensures r == SearchResult(df, text, columns, filters, limit, offset)
  {
    if df.IsEmpty() {
      return Done(AllPositions(|df.rows|));
    }
    var selected: seq<nat>;
    if TextSearchOn(text, columns) {
      var anyColumn := false;
      for k := 0 to |columns|
        invariant anyColumn <==> exists j :: 0 <= j < k && columns[j] in df.columns
      {
        if columns[k] in df.columns {
          anyColumn := true;
        }
      }
      if !anyColumn {
        return Raised;
      }
    }
    selected := SelectByText(df, text, columns);
    for k := 0 to |filters|
      invariant selected == Kept(df, text, columns, filters[..k], |df.rows|)
    {
      assert filters[..k + 1] == filters[..k] + [filters[k]];
      var (col, value) := filters[k];
      if col in df.columns && value != Null {
        RestrictKept(df, text, columns, filters[..k], filters[k], |df.rows|);
        selected := Narrow(df, selected, filters[k]);
      } else {
        KeptIgnoresFilter(df, text, columns, filters[..k], filters[k], |df.rows|);
      }
    }
    assert filters[..|filters|] == filters;
    var startIndex := offset * limit;
    var endIndex := startIndex + limit;
    r := Done(PySlice(selected, startIndex, endIndex));
  }

  /** The text-search mask, or every row when there is no text search. */
  method SelectByText(df: Frame, text: string, columns: seq<string>) returns (selected: seq<nat>)
    ensures selected == Kept(df, text, columns, [], |df.rows|)
  {
    selected := [];
    for i := 0 to |df.rows|
      invariant selected == Kept(df, text, columns, [], i)
    {
      var keep := true;
      if TextSearchOn(text, columns) {
        keep := RowHit(df, df.rows[i], text, columns);
      }
      if keep {
        selected := selected + [i];
      } else {
        assert selected + [] == selected;
      }
    }
  }

  /** `df_filtered[df_filtered[col] == value]`. */
  method Narrow(df: Frame, selected: seq<nat>, filter: (string, Value)) returns (narrowed: seq<nat>)
    requires forall i :: 0 <= i < |selected| ==> selected[i] < |df.rows|
    ensures narrowed == Restrict(df, selected, filter)
  {
    narrowed := [];
    for j := 0 to |selected|
      invariant narrowed == Restrict(df, selected[..j], filter)
    {
      assert selected[..j + 1][..j] == selected[..j];
      if Cell(df.rows[selected[j]], filter.0) == filter.1 {
        narrowed := narrowed + [selected[j]];
      } else {
        assert narrowed + [] == narrowed;
      }
    }
    assert selected[..|selected|] == selected;
  }

  /** Whether one row contains the text in some listed column. */
  method RowHit(df: Frame, row: Record, text: string, columns: seq<string>) returns (hit: bool)
    ensures hit == TextHit(df, row, text, columns)
  {
    hit := false;
    for k := 0 to |columns|
      invariant hit <==> exists j :: 0 <= j < k && columns[j] in df.columns && Contains(SearchText(Cell(row, columns[j])), Lower(text))
    {
      if columns[k] in df.columns && Contains(SearchText(Cell(row, columns[k])), Lower(text)) {
        hit := true;
      }
    }
  }

  /** The kept positions are exactly the rows the search keeps. */
  lemma {:induction false} KeptIff(df: Frame, text: string, columns: seq<string>, filters: seq<(string, Value)>, n: nat)
    requires n <= |df.rows|
    ensures forall p :: p in Kept(df, text, columns, filters, n) <==> 0 <= p < n && Keeps(df, df.rows[p], text, columns, filters)
  {
    if n > 0 {
      KeptIff(df, text, columns, filters, n - 1);
      var init := Kept(df, text, columns, filters, n - 1);
      var k := Kept(df, text, columns, filters, n);
      assert k == init + (if Keeps(df, df.rows[n - 1], text, columns, filters) then [n - 1] else []);
      assert forall p :: p in k <==> p in init || (p == n - 1 && Keeps(df, df.rows[n - 1], text, columns, filters));
    }
  }

  /** The kept positions are strictly increasing, so the original order is
      preserved. */
  lemma {:induction false} KeptIncreasing(df: Frame, text: string, columns: seq<string>, filters: seq<(string, Value)>, n: nat)
    requires n <= |df.rows|
    ensures forall i, j :: 0 <= i < j < |Kept(df, text, columns, filters, n)| ==>
      Kept(df, text, columns, filters, n)[i] < Kept(df, text, columns, filters, n)[j]
  {
    if n > 0 {
      KeptIncreasing(df, text, columns, filters, n - 1);
    }
  }

  /** Without search text or search columns and without filters, every row
      is kept. */
  lemma {:induction false} KeptAll(df: Frame, text: string, columns: seq<string>, n: nat)
    requires n <= |df.rows| && !TextSearchOn(text, columns)
    ensures Kept(df, text, columns, [], n) == AllPositions(n)
  {
    if n > 0 {
      KeptAll(df, text, columns, n - 1);
    }
  }

  /** A page holds at most `limit` positions, each of them kept, in their
      original order. */
  lemma SearchResultPage(df: Frame, text: string, columns: seq<string>, filters: seq<(string, Value)>, limit: nat, offset: int)
    requires !df.IsEmpty() && SearchResult(df, text, columns, filters, limit, offset).Done?
    ensures var page := SearchResult(df, text, columns, filters, limit, offset).value;
      && |page| <= limit
      && (forall i :: 0 <= i < |page| ==> page[i] < |df.rows| && Keeps(df, df.rows[page[i]], text, columns, filters))
      && (forall i, j :: 0 <= i < j < |page| ==> page[i] < page[j])
  {
    var kept := Kept(df, text, columns, filters, |df.rows|);
    KeptIff(df, text, columns, filters, |df.rows|);
    KeptIncreasing(df, text, columns, filters, |df.rows|);
    var lo, page := PySliceWindow(kept, offset * limit, limit);
    assert page == SearchResult(df, text, columns, filters, limit, offset).value;
    forall i | 0 <= i < |page| ensures page[i] < |df.rows| && Keeps(df, df.rows[page[i]], text, columns, filters) {
      assert page[i] in kept;
    }
  }

  /** The page is taken from the kept positions: consecutive ones from the
      clamped start `offset * limit`, and for a non-negative offset exactly
      those in the window `[offset * limit, offset * limit + limit)`. */
  lemma SearchResultWindow(df: Frame, text: string, columns: seq<string>, filters: seq<(string, Value)>, limit: nat, offset: int)
    requires !df.IsEmpty() && SearchResult(df, text, columns, filters, limit, offset).Done?
    ensures var page := SearchResult(df, text, columns, filters, limit, offset).value;
      var kept := Kept(df, text, columns, filters, |df.rows|);
      var lo := SliceBound(offset * limit, |kept|);
      && (forall k :: 0 <= k < |page| ==> lo + k < |kept| && page[k] == kept[lo + k])
      && (offset >= 0 ==> page == kept[lo..if lo + limit > |kept| then |kept| else lo + limit])
  {
    SearchResultSlice(df, text, columns, filters, limit, offset);
    PySliceExact(Kept(df, text, columns, filters, |df.rows|), offset * limit, limit);
    if offset >= 0 {
      ProductNonNegative(offset, limit);
    }
  }

  lemma ProductNonNegative(a: nat, b: nat)
    ensures a * b >= 0
  {
  }

  /** On a non-empty snapshot, a search that does not raise is the slice of
      the kept positions. */
  lemma SearchResultSlice(df: Frame, text: string, columns: seq<string>, filters: seq<(string, Value)>, limit: nat, offset: int)
    requires !df.IsEmpty() && SearchResult(df, text, columns, filters, limit, offset).Done?
    ensures SearchResult(df, text, columns, filters, limit, offset).value ==
      PySlice(Kept(df, text, columns, filters, |df.rows|), offset * limit, offset * limit + limit)
  {
  }
}
