/** The teacher section: its store configuration and form rules, the
    accent-insensitive duplicate-name check before a create, the update
    path, the guards that drop a stale selected position, and the
    any-cell list search. */
module Teachers {
  import opened PyValues
  import opened Worksheet
  import opened Session
  import opened Validation
  import opened Crud

  const NAME_FIELD: string := "Nome Completo"
  const PHONE_FIELD: string := "Telefone"
  const EMAIL_FIELD: string := "Email"

  /** `PROFESSOR_CONFIG`. */
  const TEACHER_CONFIG: SheetConfig :=
    SheetConfig("Professores", "ID_professor", "P", [NAME_FIELD, PHONE_FIELD], [NAME_FIELD], None)

  /** `PROFESSOR_VALIDATION_RULES`, in its key order. */
  const TEACHER_RULES: seq<(string, Rule)> := [
    (NAME_FIELD, Rule(true, Some(NAME_FIELD), TextField)),
    (PHONE_FIELD, Rule(true, Some(PHONE_FIELD), PhoneField)),
    (EMAIL_FIELD, Rule(false, Some(EMAIL_FIELD), EmailField))
  ]

  const DUPLICATE_NAME_MESSAGE: string := "Já existe um professor com este nome."

  /** The form value of a field; a field the form lacks reads as `None`. */
  function FormValue(form: Record, field: string): Value {
    Get(form, field, Null)
  }

  /** The message list the teacher rules give for a form of strings: both
      name and phone are required, the phone must have nine digits, and the
      e-mail is optional but must be well formed when given. */
  function TeacherFormMessages(name: string, phone: string, email: string): seq<string> {
    (if name == "" then [RequiredFieldMessage(NAME_FIELD)] else [])
    + (if phone == "" then [RequiredFieldMessage(PHONE_FIELD)]
       else if !IsValidPhone(phone) then [TypeMessage(PhoneField, PHONE_FIELD)] else [])
    + (if email != "" && !IsValidEmail(email) then [TypeMessage(EmailField, EMAIL_FIELD)] else [])
  }

  /** The generic validator, run on the teacher rules, gives exactly those
      messages. */
  lemma TeacherRulesMessages(form: Record, name: string, phone: string, email: string)
    requires FormValue(form, NAME_FIELD) == Str(name)
    requires FormValue(form, PHONE_FIELD) == Str(phone)
    requires FormValue(form, EMAIL_FIELD) == Str(email)
    ensures FormErrors(form, TEACHER_RULES) == Done(TeacherFormMessages(name, phone, email))
  {
    var rs := TEACHER_RULES;
    assert rs[..0] == [];
    FormErrorsStep(form, rs, 0);
    FormErrorsStep(form, rs, 1);
    FormErrorsStep(form, rs, 2);
    assert rs[..3] == rs;
    RuleErrorsCases(form, NAME_FIELD, rs[0].1);
    RuleErrorsCases(form, PHONE_FIELD, rs[1].1);
    RuleErrorsCases(form, EMAIL_FIELD, rs[2].1);
    var m1 := if name == "" then [RequiredFieldMessage(NAME_FIELD)] else [];
    var m2 := if phone == "" then [RequiredFieldMessage(PHONE_FIELD)]
      else if !IsValidPhone(phone) then [TypeMessage(PhoneField, PHONE_FIELD)] else [];
    var m3 := if email != "" && !IsValidEmail(email) then [TypeMessage(EmailField, EMAIL_FIELD)] else [];
    assert RuleErrors(form, rs[0].0, rs[0].1) == Done(m1);
    assert RuleErrors(form, rs[1].0, rs[1].1) == Done(m2);
    assert RuleErrors(form, rs[2].0, rs[2].1) == Done(m3);
    var none: seq<string> := [];
    assert FormErrors(form, rs[..1]) == Done(none + m1);
    assert none + m1 == m1;
  }

  // ===== salvar_professor =====

  /** `df['Nome Completo'].apply(normalize_string).tolist()`. */
  function NormalizedNames(df: Frame): (r: seq<string>)
    ensures |r| == |df.rows|
  {
    seq(|df.rows|, i requires 0 <= i < |df.rows| => NormalizeString(Cell(df.rows[i], NAME_FIELD)))
  }

  /** The normalised name is among the existing normalised names. */
  predicate NameTaken(df: Frame, name: Value) {
    NormalizeString(name) in NormalizedNames(df)
  }

  /** The duplicate-name check as written: reading the name column of a
      snapshot that has no such column raises `KeyError`. */
  function DuplicateNameErrorsAsWritten(form: Record, df: Frame): (r: Checked<seq<string>>)
    ensures r.Raised? <==> Truthy(FormValue(form, NAME_FIELD)) && NAME_FIELD !in df.columns
    ensures r.Done? ==> r.value == [DUPLICATE_NAME_MESSAGE] || r.value == []
  {
    if !Truthy(FormValue(form, NAME_FIELD)) then Done([])
    else if NAME_FIELD !in df.columns then Raised
    else Done(if NameTaken(df, form[NAME_FIELD]) then [DUPLICATE_NAME_MESSAGE] else [])
  }

  /** A store that holds only its header yields a snapshot without columns,
      so adding the first teacher raises before anything is created. */
  lemma FirstTeacherRaises(header: seq<string>, form: Record)
    requires Truthy(FormValue(form, NAME_FIELD))
    ensures DuplicateNameErrorsAsWritten(form, SnapshotOf(header, [])) == Raised
  {
  }

  /** The duplicate-name check with a missing name column read as "no
      existing names". */
  function DuplicateNameErrors(form: Record, df: Frame): (r: seq<string>)
    ensures r == [DUPLICATE_NAME_MESSAGE] || r == []
  {
    if Truthy(FormValue(form, NAME_FIELD)) && NAME_FIELD in df.columns && NameTaken(df, form[NAME_FIELD])
    then [DUPLICATE_NAME_MESSAGE] else []
  }

  /** The duplicate message appears exactly when the name is given and an
      existing name has the same normalised form; the corrected check
      agrees with the written one wherever that one does not raise, and on
      an empty store it reports nothing. */
  lemma DuplicateNameIff(form: Record, df: Frame)
    ensures DuplicateNameErrors(form, df) == [DUPLICATE_NAME_MESSAGE] <==>
      Truthy(FormValue(form, NAME_FIELD)) && NAME_FIELD in df.columns &&
      exists i :: 0 <= i < |df.rows| && NormalizeString(Cell(df.rows[i], NAME_FIELD)) == NormalizeString(form[NAME_FIELD])
    ensures DuplicateNameErrorsAsWritten(form, df).Done? ==> DuplicateNameErrorsAsWritten(form, df).value == DuplicateNameErrors(form, df)
    ensures df.rows == [] ==> DuplicateNameErrors(form, df) == []
  {
    var names := NormalizedNames(df);
    assert forall i :: 0 <= i < |df.rows| ==> names[i] == NormalizeString(Cell(df.rows[i], NAME_FIELD));
  }

  /** Accents and case do not make a name new: "José" is refused next to a
      stored "Jose". */
  lemma DuplicateIgnoresAccents()
    ensures DuplicateNameErrors(map[NAME_FIELD := Str("José")], Frame([NAME_FIELD], [map[NAME_FIELD := Str("Jose")]]))
      == [DUPLICATE_NAME_MESSAGE]
  {
    var form := map[NAME_FIELD := Str("José")];
    var df := Frame([NAME_FIELD], [map[NAME_FIELD := Str("Jose")]]);
    assert Cell(df.rows[0], NAME_FIELD) == Str("Jose");
    NormalizeAccented();
    NormalizePlain();
    assert NormalizedNames(df)[0] == NormalizeString(form[NAME_FIELD]);
  }

  /** "Jose" is already normal apart from case. */
  lemma NormalizePlain()
    ensures NormalizeString(Str("Jose")) == "jose"
  {
    assert Lower("Jose") == "jose";
    NfdOfAscii("jose");
    AsciiOnlyOfAscii("jose");
  }

  /** Every message `salvar_professor` collects, as written: the form's,
      then the duplicate-name one; raised when the form rules raise or the
      snapshot has no name column. */
  function SaveErrorsAsWritten(form: Record, df: Frame): Checked<seq<string>> {
    match FormErrors(form, TEACHER_RULES)
    case Raised => Raised
    case Done(errors) =>
      match DuplicateNameErrorsAsWritten(form, df)
      case Raised => Raised
      case Done(dup) => Done(errors + dup)
  }

  /** The same messages with the corrected duplicate-name check. */
  function SaveErrors(form: Record, df: Frame): Checked<seq<string>> {
    match FormErrors(form, TEACHER_RULES)
    case Raised => Raised
    case Done(errors) => Done(errors + DuplicateNameErrors(form, df))
  }

  /** The written and the corrected message lists agree wherever the
      written one does not raise, and always when the snapshot has the name
      column; they differ only by the written one raising. */
  lemma SaveErrorsAgree(form: Record, df: Frame)
    ensures SaveErrorsAsWritten(form, df).Done? ==> SaveErrorsAsWritten(form, df) == SaveErrors(form, df)
    ensures NAME_FIELD in df.columns ==> SaveErrorsAsWritten(form, df) == SaveErrors(form, df)
    ensures SaveErrors(form, df).Raised? ==> SaveErrorsAsWritten(form, df).Raised?
  {
    DuplicateNameIff(form, df);
  }

  /** `salvar_professor` as written: the form rules, then the duplicate-name
      check, which raises `KeyError` when the snapshot has no name column;
      nothing is created while any message was collected; otherwise the
      result is that of `create_record` as written, whose row follows the
      snapshot's columns. */
  method SaveTeacher(form: Record, df: Frame, sheet: Sheet) returns (r: Checked<bool>)
    modifies sheet
    ensures sheet.header == old(sheet.header)
    ensures r.Raised? <==> SaveErrorsAsWritten(form, df).Raised?
    ensures r == Done(true) <==>
      SaveErrorsAsWritten(form, df) == Done([]) && ValidationErrors(TEACHER_CONFIG, form, df, None) == Done([])
    ensures r == Done(true) ==>
      sheet.rows == old(sheet.rows) + [RowCells(df.columns, WithId(form, TEACHER_CONFIG, df))]
    ensures r != Done(true) ==> sheet.rows == old(sheet.rows)
  {
    var checked := ValidateFormData(form, TEACHER_RULES);
    if checked.Raised? {
      return Raised;
    }
    var dup: seq<string> := [];
    if Truthy(FormValue(form, NAME_FIELD)) {
      if NAME_FIELD !in df.columns {
        return Raised;
      }
      var existing := NormalizedNames(df);
      if NormalizeString(form[NAME_FIELD]) in existing {
        dup := [DUPLICATE_NAME_MESSAGE];
      }
    }
    assert DuplicateNameErrorsAsWritten(form, df) == Done(dup);
    var errors := checked.value + dup;
    if errors != [] {
      return Done(false);
    }
    var created, stored := CreateRecordAsWritten(sheet, TEACHER_CONFIG, form, df);
    r := Done(created);
  }

  /** `salvar_professor` with the corrected duplicate-name check and the
      corrected create, whose row follows the store's header: the first
      teacher of a header-only store is checked against no names and kept. */
  method SaveTeacherCorrected(form: Record, df: Frame, sheet: Sheet) returns (r: Checked<bool>)
    modifies sheet
    ensures sheet.header == old(sheet.header)
    ensures r.Raised? <==> SaveErrors(form, df).Raised?
    ensures r == Done(true) <==>
      SaveErrors(form, df) == Done([]) && ValidationErrors(TEACHER_CONFIG, form, df, None) == Done([])
    ensures r == Done(true) ==>
      sheet.rows == old(sheet.rows) + [RowCells(sheet.header, WithId(form, TEACHER_CONFIG, df))]
    ensures r != Done(true) ==> sheet.rows == old(sheet.rows)
  {
    var checked := ValidateFormData(form, TEACHER_RULES);
    if checked.Raised? {
      return Raised;
    }
    var errors := checked.value;
    if Truthy(FormValue(form, NAME_FIELD)) && NAME_FIELD in df.columns {
      var existing := NormalizedNames(df);
      if NormalizeString(form[NAME_FIELD]) in existing {
        errors := errors + [DUPLICATE_NAME_MESSAGE];
      }
    }
    assert errors == checked.value + DuplicateNameErrors(form, df);
    if errors != [] {
      return Done(false);
    }
    var created, stored := CreateRecord(sheet, TEACHER_CONFIG, form, df);
    r := Done(created);
  }

  // ===== atualizar_professor =====

  /** `atualizar_professor`: the form rules, then `update_record` with the
      teacher's own position excluded from the uniqueness check. */
  method UpdateTeacher(form: Record, index: int, df: Frame, sheet: Sheet) returns (r: Checked<bool>)
    modifies sheet
    ensures sheet.header == old(sheet.header)
    ensures r.Raised? <==> FormErrors(form, TEACHER_RULES).Raised?
    ensures r == Done(true) <==>
      && FormErrors(form, TEACHER_RULES) == Done([])
      && ValidationErrors(TEACHER_CONFIG, form, df, Some(index)) == Done([])
      && UpdatedCells(df, index, form).Done?
      && 0 <= index < |old(sheet.rows)|
    ensures r == Done(true) ==>
      sheet.rows == old(sheet.rows)[index := Overwrite(old(sheet.rows)[index], UpdatedCells(df, index, form).value)]
    ensures r != Done(true) ==> sheet.rows == old(sheet.rows)
  {
    var checked := ValidateFormData(form, TEACHER_RULES);
    if checked.Raised? {
      return Raised;
    }
    if checked.value != [] {
      return Done(false);
    }
    var ok := UpdateRecord(sheet, TEACHER_CONFIG, index, form, df);
    r := Done(ok);
  }

  /** The update path has no accent-insensitive check: renaming the teacher
      at position 1 to "José" next to a stored "Jose" passes the uniqueness
      check, while the create path refuses that name. */
  lemma UpdateMissesAccentVariant(other: Record)
    ensures var df := Frame([NAME_FIELD], [map[NAME_FIELD := Str("Jose")], other]);
      var form := map[NAME_FIELD := Str("José")];
      && UniqueErrors(df, form, TEACHER_CONFIG.uniqueColumns, Some(1), map[]) == []
      && DuplicateNameErrors(form, df) == [DUPLICATE_NAME_MESSAGE]
  {
    var df := Frame([NAME_FIELD], [map[NAME_FIELD := Str("Jose")], other]);
    var form := map[NAME_FIELD := Str("José")];
    assert Cell(df.rows[0], NAME_FIELD) == Str("Jose");
    CanonicalKeepsAccent();
    assert !Clashes(df.rows[0], NAME_FIELD, Str("José"));
    assert !HasClash(df, NAME_FIELD, Str("José"), Some(1));
    UniqueErrorsIff(df, form, TEACHER_CONFIG.uniqueColumns, Some(1), map[]);
    NormalizeAccented();
    NormalizePlain();
    assert NormalizedNames(df)[0] == NormalizeString(form[NAME_FIELD]);
  }

  /** The uniqueness check keeps accents: "José" and "Jose" differ. */
  lemma CanonicalKeepsAccent()
    ensures Canonical(Str("Jose")) != Canonical(Str("José"))
  {
    assert Strip("Jose") == "Jose" by {
      StripOfPadded("", "Jose", "");
      assert "" + "Jose" + "" == "Jose";
    }
    assert Strip("José") == "José" by {
      StripOfPadded("", "José", "");
      assert "" + "José" + "" == "José";
    }
    assert Lower("Jose")[3] == 'e';
    assert Lower("José")[3] == 'é';
  }

  // ===== the edit and delete views =====

  const EDIT_KEY: string := "edit_prof_index"
  const DELETE_KEY: string := "delete_prof_index"

  /** `verificar_vista_edicao`: whether the edit view handles this run. A
      selected position at or past the end of the snapshot is dropped.
      `back` is the "back to the list" button, which drops the selection. */
  method CheckEditView(df: Frame, session: SessionState, back: bool) returns (shown: bool)
    modifies session
    ensures EDIT_KEY !in old(session.entries) ==> !shown && session.entries == old(session.entries)
    ensures EDIT_KEY in old(session.entries) && old(session.entries)[EDIT_KEY] >= |df.rows| ==>
      !shown && session.entries == old(session.entries) - {EDIT_KEY}
    ensures EDIT_KEY in old(session.entries) && old(session.entries)[EDIT_KEY] < |df.rows| ==>
      shown && session.entries == if back then old(session.entries) - {EDIT_KEY} else old(session.entries)
  {
    if EDIT_KEY !in session.entries {
      return false;
    }
    var idx := session.entries[EDIT_KEY];
    if idx >= |df.rows| {
      session.Remove(EDIT_KEY);
      return false;
    }
    if back {
      session.Remove(EDIT_KEY);
    }
    shown := true;
  }

  /** What the user does in the delete view during one run. */
  datatype DeleteAction = Idle | BackToList | ConfirmDelete | CancelDelete

  /** `verificar_vista_apagamento`: a stale selected position is dropped;
      confirming runs `delete_record` for the selected position and drops
      the selection once it succeeds; cancelling or going back drops it. */
  method CheckDeleteView(df: Frame, session: SessionState, sheet: Sheet, action: DeleteAction) returns (shown: bool)
    modifies session, sheet
    ensures sheet.header == old(sheet.header)
    ensures DELETE_KEY !in old(session.entries) ==>
      !shown && session.entries == old(session.entries) && sheet.rows == old(sheet.rows)
    ensures DELETE_KEY in old(session.entries) && old(session.entries)[DELETE_KEY] >= |df.rows| ==>
      !shown && session.entries == old(session.entries) - {DELETE_KEY} && sheet.rows == old(sheet.rows)
    ensures DELETE_KEY in old(session.entries) && old(session.entries)[DELETE_KEY] < |df.rows| ==> shown
    ensures action != ConfirmDelete ==> sheet.rows == old(sheet.rows)
    ensures DELETE_KEY in old(session.entries) && old(session.entries)[DELETE_KEY] < |df.rows| && action in {BackToList, CancelDelete} ==>
      session.entries == old(session.entries) - {DELETE_KEY}
    ensures DELETE_KEY in old(session.entries) && old(session.entries)[DELETE_KEY] < |df.rows| && action == Idle ==>
      session.entries == old(session.entries) && sheet.rows == old(sheet.rows)
    ensures DELETE_KEY in old(session.entries) && old(session.entries)[DELETE_KEY] < |df.rows| && action == ConfirmDelete ==>
      var idx := old(session.entries)[DELETE_KEY];
      var armed := CONFIRM_DELETE in old(session.entries) && old(session.entries)[CONFIRM_DELETE] == idx;
      && (!armed ==> session.entries == old(session.entries)[CONFIRM_DELETE := idx] && sheet.rows == old(sheet.rows))
      && (armed && 0 <= idx < |old(sheet.rows)| ==>
            sheet.rows == old(sheet.rows)[..idx] + old(sheet.rows)[idx + 1..] &&
            session.entries == old(session.entries) - {CONFIRM_DELETE, DELETE_KEY})
      && (armed && !(0 <= idx < |old(sheet.rows)|) ==>
            session.entries == old(session.entries) && sheet.rows == old(sheet.rows))
    ensures sheet.rows != old(sheet.rows) ==>
      && DELETE_KEY in old(session.entries)
      && var idx := old(session.entries)[DELETE_KEY];
      && idx < |df.rows| && action == ConfirmDelete
      && CONFIRM_DELETE in old(session.entries) && old(session.entries)[CONFIRM_DELETE] == idx
      && 0 <= idx < |old(sheet.rows)|
      && sheet.rows == old(sheet.rows)[..idx] + old(sheet.rows)[idx + 1..]
      && DELETE_KEY !in session.entries
  {
    if DELETE_KEY !in session.entries {
      return false;
    }
    var idx := session.entries[DELETE_KEY];
    if idx >= |df.rows| {
      session.Remove(DELETE_KEY);
      return false;
    }
    shown := true;
    match action {
      case Idle =>
      case BackToList =>
        session.Remove(DELETE_KEY);
      case CancelDelete =>
        session.Remove(DELETE_KEY);
      case ConfirmDelete =>
        var ok := DeleteRecord(sheet, idx, session);
        if ok {
          session.Remove(DELETE_KEY);
        }
    }
  }

  // ===== render_lista_professores =====

  /** Some cell of the row, as lowered text, contains the lowered text. */
  predicate AnyCellHit(df: Frame, row: Record, text: string) {
    exists k :: 0 <= k < |df.columns| && Contains(SearchText(Cell(row, df.columns[k])), Lower(text))
  }

  /** The rows among the first `n` with a matching cell, in order. */
  function CellHits(df: Frame, text: string, n: nat): (r: seq<nat>)
    requires n <= |df.rows|
    ensures forall i :: 0 <= i < |r| ==> r[i] < n
  {
    if n == 0 then []
    else CellHits(df, text, n - 1) + (if AnyCellHit(df, df.rows[n - 1], text) then [n - 1] else [])
  }

  /** The positions the teacher list shows: every row for an empty search,
      otherwise the rows with a cell containing the text. */
  function TeacherSearch(df: Frame, text: string): seq<nat> {
    if text == "" then AllPositions(|df.rows|) else CellHits(df, text, |df.rows|)
  }

  /** Among the first `n` rows, a row is listed exactly when one of its
      cells contains the text, and the list keeps the snapshot's order. */
  lemma {:induction false} CellHitsIff(df: Frame, text: string, n: nat)
    requires n <= |df.rows|
    ensures forall p :: p in CellHits(df, text, n) <==> 0 <= p < n && AnyCellHit(df, df.rows[p], text)
  {
    if n > 0 {
      CellHitsIff(df, text, n - 1);
    }
  }

  lemma {:induction false} CellHitsIncreasing(df: Frame, text: string, n: nat)
    requires n <= |df.rows|
    ensures forall i, j :: 0 <= i < j < |CellHits(df, text, n)| ==> CellHits(df, text, n)[i] < CellHits(df, text, n)[j]
  {
    if n > 0 {
      CellHitsIncreasing(df, text, n - 1);
    }
  }

  /** The teacher list search is the generic search over every column with
      no filters and a single page holding every row. */
  lemma {:induction false} TeacherSearchIsGenericSearch(df: Frame, text: string, n: nat)
    requires n <= |df.rows| && df.columns != []
    ensures text == "" ==> AllPositions(n) == Kept(df, text, df.columns, [], n)
    ensures text != "" ==> CellHits(df, text, n) == Kept(df, text, df.columns, [], n)
  {
    if text == "" {
      KeptAll(df, text, df.columns, n);
    } else if n > 0 {
      TeacherSearchIsGenericSearch(df, text, n - 1);
      var row := df.rows[n - 1];
      assert AnyCellHit(df, row, text) <==> TextHit(df, row, text, df.columns);
    }
  }

  lemma TeacherSearchAgrees(df: Frame, text: string)
    requires df.columns != [] && df.rows != []
    ensures SearchResult(df, text, df.columns, [], |df.rows|, 0) == Done(TeacherSearch(df, text))
  {
    TeacherSearchIsGenericSearch(df, text, |df.rows|);
    var kept := Kept(df, text, df.columns, [], |df.rows|);
    assert df.columns[0] in df.columns;
    assert |kept| <= |df.rows| by {
      if text == "" { } else { KeptLength(df, text, df.columns, [], |df.rows|); }
    }
    assert PySlice(kept, 0, |df.rows|) == kept;
  }

  lemma {:induction false} KeptLength(df: Frame, text: string, columns: seq<string>, filters: seq<(string, Value)>, n: nat)
    requires n <= |df.rows|
    ensures |Kept(df, text, columns, filters, n)| <= n
  {
    if n > 0 {
      KeptLength(df, text, columns, filters, n - 1);
    }
  }
}
