/**
 * The catalog editor (editor.js): an array of records edited in place
 * row by row, and the save step that validates the project name and the
 * row names and writes every row in a fixed key order.
 */
module Editor {
  import opened Wrappers
  import opened SeqUtil
  import opened JsString
  import opened Records

  /** The keys whose edited text is stored as an array. */
  const ArrayKeys: seq<string> := ["WI", "Partners", "Category"]

  /** The keys of a saved row, in order: Project first, then the output order without Project. */
  const OutputKeys: seq<string> := ["Project", "Name", "URL", "License", "Status", "Description", "WI", "Partners", "Comment", "Category"]

  /** `value.split(',').map(s => s.trim()).filter(Boolean)`. */
  function CommaTokens(value: string): seq<string> {
    Filter(TrimAll(Split(value, ',')), NonEmpty)
  }

  /** What `updateData` stores for an edited key. */
  function EditedCell(key: string, value: string): Cell {
    if key in ArrayKeys then Multi(CommaTokens(value)) else Scalar(value)
  }

  /** Each stored token is trimmed, non-empty and free of commas. */
  lemma CommaTokensClean(value: string)
    ensures forall t :: t in CommaTokens(value) ==> t != "" && Trim(t) == t && ',' !in t
  {
    var pieces := Split(value, ',');
    var trimmed := TrimAll(pieces);
    forall i | 0 <= i < |trimmed| ensures Trim(trimmed[i]) == trimmed[i] && ',' !in trimmed[i] {
      TrimIdempotent(pieces[i]);
      TrimKeepsAbsent(pieces[i], ',');
    }
    forall t | t in CommaTokens(value) ensures t != "" && Trim(t) == t && ',' !in t {
      FilterMember(trimmed, NonEmpty, t);
    }
  }

  /** A space after a clean token's comma is trimmed away. */
  lemma TrimSpaced(t: string)
    requires t != "" && Trim(t) == t
    ensures Trim(" " + t) == t
  {
    assert (" " + t)[1..] == t;
    assert TrimStart(" " + t) == TrimStart(t);
    TrimSpec(t);
  }

  /** The first token, then each later one with pad in front. */
  function PadTail(tokens: seq<string>, pad: string): (r: seq<string>)
    requires |tokens| >= 1
    ensures |r| == |tokens| && r[0] == tokens[0]
    ensures forall i :: 1 <= i < |tokens| ==> r[i] == pad + tokens[i]
  {
    [tokens[0]] + seq(|tokens| - 1, i requires 0 <= i < |tokens| - 1 => pad + tokens[i + 1])
  }

  /** The pieces of `tokens.join(', ')` between commas: the first token, then each later one after a space. */
  function Spaced(tokens: seq<string>): (r: seq<string>)
    requires |tokens| >= 1
    ensures |r| == |tokens| && r[0] == tokens[0]
    ensures forall i :: 1 <= i < |tokens| ==> r[i] == " " + tokens[i]
  {
    PadTail(tokens, " ")
  }

  /** Joining with sep + pad is joining the padded tokens with sep. */
  lemma {:induction false} JoinPadded(tokens: seq<string>, sep: string, pad: string)
    requires |tokens| >= 1
    ensures Join(tokens, sep + pad) == Join(PadTail(tokens, pad), sep)
  {
    if |tokens| > 1 {
      JoinPadded(tokens[1..], sep, pad);
      var sp := PadTail(tokens, pad);
      var rest := PadTail(tokens[1..], pad);
      assert sp[1..] == [pad + tokens[1]] + rest[1..];
      JoinCons(pad, rest, sep);
      assert Join(tokens, sep + pad) == tokens[0] + (sep + pad) + Join(tokens[1..], sep + pad);
      assert Join(sp, sep) == tokens[0] + sep + Join(sp[1..], sep);
      assert [pad + rest[0]] + rest[1..] == sp[1..];
    }
  }

  lemma JoinSpaced(tokens: seq<string>)
    requires |tokens| >= 1
    ensures Join(tokens, ", ") == Join(Spaced(tokens), ",")
  {
    assert ", " == "," + " ";
    JoinPadded(tokens, ",", " ");
  }

  /** The pieces of `tokens.join(', ')` split at the commas. */
  lemma SplitSpaced(tokens: seq<string>)
    requires |tokens| >= 1
    requires forall i :: 0 <= i < |tokens| ==> ',' !in tokens[i]
    ensures Split(Join(tokens, ", "), ',') == Spaced(tokens)
  {
    var sp := Spaced(tokens);
    forall i | 0 <= i < |sp| ensures ',' !in sp[i] {
      if i > 0 {
        assert sp[i] == " " + tokens[i];
      }
    }
    JoinSpaced(tokens);
    assert [','] == ",";
    SplitJoin(sp, ',');
  }

  /** Trimming the spaced pieces gives back clean tokens. */
  lemma TrimSpacedAll(tokens: seq<string>)
    requires |tokens| >= 1
    requires forall i :: 0 <= i < |tokens| ==> tokens[i] != "" && Trim(tokens[i]) == tokens[i]
    ensures TrimAll(Spaced(tokens)) == tokens
  {
    var sp := Spaced(tokens);
    forall i | 0 <= i < |tokens| ensures Trim(sp[i]) == tokens[i] {
      if i > 0 {
        TrimSpaced(tokens[i]);
      }
    }
  }

  /** An empty field stores no tokens. */
  lemma CommaTokensEmpty()
    ensures CommaTokens("") == []
  {
    assert Split("", ',') == [""];
    assert TrimAll([""]) == [""];
    FilterNone([""], NonEmpty);
  }

  /**
   * The edit round trip: an array cell is shown as its items joined with
   * ", ", and storing that text again gives back the same clean items.
   */
  lemma CommaTokensRoundTrip(tokens: seq<string>)
    requires forall i :: 0 <= i < |tokens| ==> tokens[i] != "" && Trim(tokens[i]) == tokens[i] && ',' !in tokens[i]
    ensures CommaTokens(Join(tokens, ", ")) == tokens
  {
    if tokens == [] {
      CommaTokensEmpty();
    } else {
      var text := Join(tokens, ", ");
      SplitSpaced(tokens);
      assert Split(text, ',') == Spaced(tokens);
      TrimSpacedAll(tokens);
      assert TrimAll(Split(text, ',')) == tokens;
      FilterAll(tokens, NonEmpty);
    }
  }

  // ---------------------------------------------------------------------
  // Save validation (editor.js:130-155)
  // ---------------------------------------------------------------------

  /** Why a save stops. */
  datatype SaveError =
    | EmptyProjectName
    | NameNotText(row: nat)
    | EmptyName(row: nat)
    | DuplicateName(row: nat, name: string)

  /** `(row.Name || '').trim()`: None when the value has no trim (an array), which aborts the save. */
  function NameText(row: Record): Option<string> {
    match row.Get("Name")
    case Missing => Some("")
    case Scalar(t) => Some(Trim(t))
    case Multi(_) => None
  }

  /** The first n rows have non-empty names, pairwise distinct. */
  ghost predicate NamesValidUpTo(rows: seq<Record>, n: nat)
    requires n <= |rows|
  {
    && (forall i :: 0 <= i < n ==> NameText(rows[i]).Some? && NameText(rows[i]).value != "")
    && (forall i, j :: 0 <= i < j < n ==> NameText(rows[i]) != NameText(rows[j]))
  }

  ghost predicate NamesValid(rows: seq<Record>) {
    NamesValidUpTo(rows, |rows|)
  }

  /** The validation loop from row i on, with the names seen so far. */
  function NameErrorFrom(rows: seq<Record>, i: nat, seen: set<string>): Option<SaveError>
    requires i <= |rows|
    decreases |rows| - i
  {
    if i == |rows| then None
    else
      match NameText(rows[i])
      case None => Some(NameNotText(i))
      case Some(n) =>
        if n == "" then Some(EmptyName(i))
        else if n in seen then Some(DuplicateName(i, n))
        else NameErrorFrom(rows, i + 1, seen + {n})
  }

  /** The first error of the validation loop, if any. */
  function FirstNameError(rows: seq<Record>): Option<SaveError> {
    NameErrorFrom(rows, 0, {})
  }

  /** The names of the first n rows. */
  ghost function NamesUpTo(rows: seq<Record>, n: nat): set<string>
    requires n <= |rows|
  {
    set i | 0 <= i < n && NameText(rows[i]).Some? :: NameText(rows[i]).value
  }

  /** The loop of saveFile that fills `seenNames`. */
  method ValidateNames(rows: seq<Record>) returns (err: Option<SaveError>)
    ensures err == FirstNameError(rows)
  {
    var seen: set<string> := {};
    var i := 0;
    while i < |rows|
      invariant 0 <= i <= |rows|
      invariant NameErrorFrom(rows, i, seen) == FirstNameError(rows)
    {
      var name := NameText(rows[i]);
      if name.None? {
        return Some(NameNotText(i));
      }
      if name.value == "" {
        return Some(EmptyName(i));
      }
      if name.value in seen {
        return Some(DuplicateName(i, name.value));
      }
      seen := seen + {name.value};
      i := i + 1;
    }
    err := None;
  }

  /** The validation loop from row i on, started with the names of the rows before it. */
  lemma {:induction false} NameErrorFromSpec(rows: seq<Record>, i: nat)
    requires i <= |rows| && NamesValidUpTo(rows, i)
    ensures var err := NameErrorFrom(rows, i, NamesUpTo(rows, i));
      && (err.None? <==> NamesValid(rows))
      && (err.Some? ==> IsFirstNameError(rows, err.value))
    decreases |rows| - i
  {
    var seen := NamesUpTo(rows, i);
    if i < |rows| {
      match NameText(rows[i])
      case None =>
      case Some(n) =>
        if n == "" {
        } else if n in seen {
          var j :| 0 <= j < i && NameText(rows[j]).Some? && NameText(rows[j]).value == n;
        } else {
          ExtendNames(rows, i);
          NameErrorFromSpec(rows, i + 1);
        }
    }
  }

  /** A new non-empty name extends the valid prefix by one row. */
  lemma ExtendNames(rows: seq<Record>, i: nat)
    requires i < |rows| && NamesValidUpTo(rows, i)
    requires NameText(rows[i]).Some? && NameText(rows[i]).value != ""
    requires NameText(rows[i]).value !in NamesUpTo(rows, i)
    ensures NamesValidUpTo(rows, i + 1)
    ensures NamesUpTo(rows, i + 1) == NamesUpTo(rows, i) + {NameText(rows[i]).value}
  {
    ExtendValid(rows, i);
    ExtendSeen(rows, i);
  }

  lemma ExtendValid(rows: seq<Record>, i: nat)
    requires i < |rows| && NamesValidUpTo(rows, i)
    requires NameText(rows[i]).Some? && NameText(rows[i]).value != ""
    requires NameText(rows[i]).value !in NamesUpTo(rows, i)
    ensures NamesValidUpTo(rows, i + 1)
  {
    forall j, k | 0 <= j < k < i + 1 ensures NameText(rows[j]) != NameText(rows[k]) {
      if k == i {
        InNamesUpTo(rows, i, j);
      }
    }
  }

  lemma InNamesUpTo(rows: seq<Record>, i: nat, j: nat)
    requires j < i <= |rows| && NameText(rows[j]).Some?
    ensures NameText(rows[j]).value in NamesUpTo(rows, i)
  {
  }

  lemma ExtendSeen(rows: seq<Record>, i: nat)
    requires i < |rows| && NameText(rows[i]).Some?
    ensures NamesUpTo(rows, i + 1) == NamesUpTo(rows, i) + {NameText(rows[i]).value}
  {
    var n, before, after := NameText(rows[i]).value, NamesUpTo(rows, i), NamesUpTo(rows, i + 1);
    forall x | x in after ensures x in before || x == n {
      var j :| 0 <= j < i + 1 && NameText(rows[j]).Some? && NameText(rows[j]).value == x;
      if j < i {
        InNamesUpTo(rows, i, j);
      }
    }
    forall x | x in before ensures x in after {
      var j :| 0 <= j < i && NameText(rows[j]).Some? && NameText(rows[j]).value == x;
      InNamesUpTo(rows, i + 1, j);
    }
    InNamesUpTo(rows, i + 1, i);
    assert after == before + {n};
  }

  /**
   * An error names the first offending row: every earlier row has a
   * non-empty name unlike all before it, and the row has no text, an
   * empty name, or a name an earlier row already has.
   */
  ghost predicate IsFirstNameError(rows: seq<Record>, e: SaveError) {
    match e
    case EmptyProjectName => false
    case NameNotText(i) => i < |rows| && NamesValidUpTo(rows, i) && NameText(rows[i]).None?
    case EmptyName(i) => i < |rows| && NamesValidUpTo(rows, i) && NameText(rows[i]) == Some("")
    case DuplicateName(i, n) =>
      && i < |rows| && NamesValidUpTo(rows, i) && n != "" && NameText(rows[i]) == Some(n)
      && exists j :: 0 <= j < i && NameText(rows[j]) == Some(n)
  }

  /** The validation accepts the rows iff all names are non-empty and pairwise distinct, and otherwise stops at the first offending row. */
  lemma FirstNameErrorSpec(rows: seq<Record>)
    ensures FirstNameError(rows).None? <==> NamesValid(rows)
    ensures FirstNameError(rows).Some? ==> IsFirstNameError(rows, FirstNameError(rows).value)
  {
    assert NamesUpTo(rows, 0) == {};
    NameErrorFromSpec(rows, 0);
  }

  // ---------------------------------------------------------------------
  // The saved rows (editor.js:157-173)
  // ---------------------------------------------------------------------

  /** `row[key] || []` for the array keys, `row[key] || ''` for the others. */
  function OutputCell(row: Record, key: string): Cell {
    if Truthy(row.Get(key)) then row.Get(key)
    else if key in ArrayKeys then Multi([])
    else Scalar("")
  }

  /** A saved row: the project, then every other output key with its value or default. */
  function NormalizeRow(row: Record, project: string): (r: Record)
    ensures r.keys == OutputKeys && r.WellFormed()
    ensures r.Get("Project") == Scalar(project)
    ensures forall k :: k in OutputKeys && k != "Project" ==> r.Get(k) == OutputCell(row, k)
    ensures forall k :: k !in OutputKeys ==> r.Get(k) == Missing
  {
    Record(OutputKeys, map k | k in OutputKeys :: if k == "Project" then Scalar(project) else OutputCell(row, k))
  }

  /** `currentData.map(...)`. */
  function NormalizeRows(rows: seq<Record>, project: string): (r: seq<Record>)
    ensures |r| == |rows| && forall i :: 0 <= i < |rows| ==> r[i] == NormalizeRow(rows[i], project)
  {
    seq(|rows|, i requires 0 <= i < |rows| => NormalizeRow(rows[i], project))
  }

  /** The result of saving: the file name and the rows written, or why the save stopped. */
  datatype SaveOutcome = Saved(fileName: string, rows: seq<Record>) | Rejected(error: SaveError)

  /** The whole of saveFile on the data and the project-name field. */
  function SaveResult(rows: seq<Record>, projectInput: string): SaveOutcome {
    var project := Trim(projectInput);
    if project == "" then Rejected(EmptyProjectName)
    else match FirstNameError(rows)
      case Some(e) => Rejected(e)
      case None => Saved(project + ".json", NormalizeRows(rows, project))
  }

  /**
   * A blank project name stops the save; otherwise the save goes ahead
   * iff every row name is non-empty and unique, writing one row per row
   * under `<project>.json`.
   */
  lemma SaveResultSpec(rows: seq<Record>, projectInput: string)
    ensures Trim(projectInput) == "" ==> SaveResult(rows, projectInput) == Rejected(EmptyProjectName)
    ensures Trim(projectInput) != "" ==> (SaveResult(rows, projectInput).Saved? <==> NamesValid(rows))
    ensures Trim(projectInput) != "" && SaveResult(rows, projectInput).Rejected? ==>
      IsFirstNameError(rows, SaveResult(rows, projectInput).error)
    ensures SaveResult(rows, projectInput).Saved? ==>
      && SaveResult(rows, projectInput).fileName == Trim(projectInput) + ".json"
      && |SaveResult(rows, projectInput).rows| == |rows|
  {
    FirstNameErrorSpec(rows);
  }

  /** Normalising a saved row again changes nothing. */
  lemma NormalizeRowIdempotent(row: Record, project: string)
    requires project != ""
    ensures NormalizeRow(NormalizeRow(row, project), project) == NormalizeRow(row, project)
  {
    var r := NormalizeRow(row, project);
    var r2 := NormalizeRow(r, project);
    forall k | k in OutputKeys ensures r2.fields[k] == r.fields[k] {
      assert r2.Get(k) == r.Get(k);
    }
  }

  /** A saved row has the same name text as the row it came from. */
  lemma NormalizeKeepsNames(row: Record, project: string)
    ensures NameText(NormalizeRow(row, project)) == NameText(row)
  {
    assert "Name" in OutputKeys;
  }

  // ---------------------------------------------------------------------
  // The editor's state (editor.js:30, 69-127, 308-327)
  // ---------------------------------------------------------------------

  /** What reading a local file gave: a syntax error, one object, or an array of objects. */
  datatype LocalJson = BadJson | Single(record: Record) | Many(records: seq<Record>)

  /** The project field after loading rows: a truthy Project of the first row, else what it was. */
  function ProjectAfterLoad(rows: seq<Record>, previous: string): string {
    if |rows| > 0 && Truthy(rows[0].Get("Project")) then DisplayText(rows[0].Get("Project")) else previous
  }

  /** Saving what was saved, loaded back, writes the same file: the output is a fixed point of the editor. */
  lemma SaveLoadSave(rows: seq<Record>, projectInput: string, previous: string)
    requires SaveResult(rows, projectInput).Saved?
    ensures var out := SaveResult(rows, projectInput).rows;
      && (rows != [] ==> ProjectAfterLoad(out, previous) == Trim(projectInput))
      && SaveResult(out, ProjectAfterLoad(out, Trim(projectInput))) == SaveResult(rows, projectInput)
  {
    var p := Trim(projectInput);
    var out := NormalizeRows(rows, p);
    assert SaveResult(rows, projectInput) == Saved(p + ".json", out);
    TrimIdempotent(projectInput);
    FirstNameErrorSpec(rows);
    NormalizedNamesValid(rows, p);
    FirstNameErrorSpec(out);
    SavedProject(rows, p, previous);
    SavedProject(rows, p, p);
    NormalizeRowsIdempotent(rows, p);
  }

  /** Valid names stay valid in the saved rows. */
  lemma NormalizedNamesValid(rows: seq<Record>, p: string)
    requires NamesValid(rows)
    ensures NamesValid(NormalizeRows(rows, p))
  {
    var out := NormalizeRows(rows, p);
    forall i | 0 <= i < |out| ensures NameText(out[i]) == NameText(rows[i]) {
      NormalizeKeepsNames(rows[i], p);
    }
  }

  /** Loading saved rows sets the project field to their project, or keeps it when there are none. */
  lemma SavedProject(rows: seq<Record>, p: string, previous: string)
    requires p != ""
    ensures ProjectAfterLoad(NormalizeRows(rows, p), previous) == if rows == [] then previous else p
  {
    if rows != [] {
      assert NormalizeRows(rows, p)[0].Get("Project") == Scalar(p);
    }
  }

  /** Normalising saved rows again changes nothing. */
  lemma NormalizeRowsIdempotent(rows: seq<Record>, p: string)
    requires p != ""
    ensures NormalizeRows(NormalizeRows(rows, p), p) == NormalizeRows(rows, p)
  {
    var out := NormalizeRows(rows, p);
    forall i | 0 <= i < |out| ensures NormalizeRow(out[i], p) == out[i] {
      NormalizeRowIdempotent(rows[i], p);
    }
  }

  class EditorState {
    /** `currentData`. */
    var currentData: seq<Record>
    /** The value of the project-name field. */
    var projectNameInput: string

    constructor()
      ensures currentData == [] && projectNameInput == ""
    {
      currentData := [];
      projectNameInput := "";
    }

    /** `createNewFile`: one empty row and an empty project name. */
    method CreateNewFile()
      modifies this
      ensures currentData == [EmptyRecord] && projectNameInput == ""
    {
      projectNameInput := "";
      currentData := [EmptyRecord];
    }

    /** `addRow`: an empty row at the end. */
    method AddRow()
      modifies this
      ensures currentData == old(currentData) + [EmptyRecord]
      ensures projectNameInput == old(projectNameInput)
    {
      currentData := currentData + [EmptyRecord];
    }

    /** `insertRowBelow(index)`: an empty row right after row index, or at the end when index is the last row or past it. */
    method InsertRowBelow(index: nat)
      modifies this
      ensures index < |old(currentData)| ==>
        currentData == old(currentData)[..index + 1] + [EmptyRecord] + old(currentData)[index + 1..]
      ensures index >= |old(currentData)| ==> currentData == old(currentData) + [EmptyRecord]
      ensures projectNameInput == old(projectNameInput)
    {
      var at := if index < |currentData| then index + 1 else |currentData|;
      currentData := currentData[..at] + [EmptyRecord] + currentData[at..];
    }

    /**
     * `deleteRow(index)`: the row removed, except that the only row is
     * cleared instead; an index past the end removes nothing.
     */
    method DeleteRow(index: nat)
      requires |currentData| == 1 ==> index == 0
      modifies this
      ensures |old(currentData)| == 1 ==> currentData == [EmptyRecord]
      ensures |old(currentData)| != 1 && index < |old(currentData)| ==>
        currentData == old(currentData)[..index] + old(currentData)[index + 1..]
      ensures |old(currentData)| != 1 && index >= |old(currentData)| ==> currentData == old(currentData)
      ensures old(currentData) != [] ==> currentData != []
      ensures projectNameInput == old(projectNameInput)
    {
      if |currentData| == 1 {
        currentData := [EmptyRecord];
      } else if index < |currentData| {
        currentData := currentData[..index] + currentData[index + 1..];
      }
    }

    /**
     * `updateData(index, key, value)`: only that field of that row
     * changes; an index past the end changes nothing (the assignment throws).
     */
    method UpdateData(index: nat, key: string, value: string)
      modifies this
      ensures |currentData| == |old(currentData)|
      ensures index < |currentData| ==> currentData[index] == old(currentData)[index].Set(key, EditedCell(key, value))
      ensures index < |currentData| ==> currentData[index].Get(key) == EditedCell(key, value)
      ensures index < |currentData| ==> forall k :: k != key ==> currentData[index].Get(k) == old(currentData)[index].Get(k)
      ensures forall i :: 0 <= i < |currentData| && i != index ==> currentData[i] == old(currentData)[i]
      ensures index >= |currentData| ==> currentData == old(currentData)
      ensures projectNameInput == old(projectNameInput)
    {
      if index < |currentData| {
        currentData := currentData[index := currentData[index].Set(key, EditedCell(key, value))];
      }
    }

    /** Reading a local file: a single object is wrapped in an array; unparsable text changes nothing. */
    method LoadLocal(data: LocalJson)
      modifies this
      ensures data.BadJson? ==> currentData == old(currentData) && projectNameInput == old(projectNameInput)
      ensures data.Single? ==> currentData == [data.record]
      ensures data.Many? ==> currentData == data.records
      ensures !data.BadJson? ==> projectNameInput == ProjectAfterLoad(currentData, old(projectNameInput))
    {
      match data {
        case BadJson =>
        case Single(r) => currentData := [r];
        case Many(rs) => currentData := rs;
      }
      if !data.BadJson? && |currentData| > 0 && Truthy(currentData[0].Get("Project")) {
        projectNameInput := DisplayText(currentData[0].Get("Project"));
      }
    }

    /** `loadFileData` on a fetched array: the project field is cleared when the first row has no Project. */
    method LoadRemote(rows: seq<Record>)
      modifies this
      ensures currentData == rows
      ensures projectNameInput == ProjectAfterLoad(rows, "")
    {
      currentData := rows;
      if |currentData| > 0 && Truthy(currentData[0].Get("Project")) {
        projectNameInput := DisplayText(currentData[0].Get("Project"));
      } else {
        projectNameInput := "";
      }
    }

    /** `saveFile`: the project-name check, the name loop, then the normalised rows. */
    method SaveFile() returns (outcome: SaveOutcome)
      ensures outcome == SaveResult(currentData, projectNameInput)
    {
      var projectName := Trim(projectNameInput);
      if projectName == "" {
        return Rejected(EmptyProjectName);
      }
      var err := ValidateNames(currentData);
      if err.Some? {
        return Rejected(err.value);
      }
      outcome := Saved(projectName + ".json", NormalizeRows(currentData, projectName));
    }
  }
}
