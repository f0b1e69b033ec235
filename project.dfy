/**
 * The table set-up of project.py: `TABLES` lists the measure tables of a
 * project with the SQL definition of their own fields, and `add_table`
 * derives from that definition the field names and the fragments the SQL
 * templates are filled with, storing them in the table's dictionary.
 * `create` gives every table the project's SRID before adding it.  The
 * database statements themselves are outside the model.
 */
module Project {
  import opened Wrappers
  import opened Sequences

  /** A value of a table dictionary: the templates' text, or the SRID. */
  datatype Value = Text(text: string) | Number(number: int)

  /** The name and the field definition of each entry of `TABLES`, in order. */
  const TABLE_DEFINITIONS: seq<(string, string)> := [
    ("radiometry", "gamma real"),
    ("resistivity", "rho real"),
    ("formation", "code integer, comments varchar"),
    ("lithology", "code integer, comments varchar"),
    ("facies", "code integer, comments varchar"),
    ("chemical", "num_sample varchar, element varchar, thickness real, gt real, grade real, equi real, comments varchar"),
    ("mineralization", "level_ real, oc real, accu real, grade real, comments varchar")
  ]

  /** A dictionary of `TABLES`, updated in place by `create` and `add_table`. */
  class Table {
    var entries: map<string, Value>

    constructor (name: string, definition: string)
      ensures entries == map["NAME" := Text(name), "FIELDS_DEFINITION" := Text(definition)]
    {
      entries := map["NAME" := Text(name), "FIELDS_DEFINITION" := Text(definition)];
    }
  }

  // ---------------------------------------------------------------- field names

  /** The number of white-space characters that start `s`. */
  function LeadingSpaces(s: string): (k: nat)
    ensures k <= |s| && forall j :: 0 <= j < k ==> IsSpace(s[j])
    ensures k < |s| ==> !IsSpace(s[k])
  {
    if |s| > 0 && IsSpace(s[0]) then 1 + LeadingSpaces(s[1..]) else 0
  }

  /** The end of the run of non-space characters that starts at `k`. */
  function WordEnd(s: string, k: nat): (e: nat)
    requires k <= |s|
    ensures k <= e <= |s| && forall j :: k <= j < e ==> !IsSpace(s[j])
    ensures e < |s| ==> IsSpace(s[e])
    decreases |s| - k
  {
    if k < |s| && !IsSpace(s[k]) then WordEnd(s, k + 1) else k
  }

  /**
   * `s.split()[0]`: the first word, or `None` (an IndexError) when `s` is
   * all white space.  The word has no white space in it, so the
   * `.strip()` applied to it leaves it as it is.
   */
  function FirstWord(s: string): (r: Option<string>)
    ensures r.None? <==> forall j :: 0 <= j < |s| ==> IsSpace(s[j])
    ensures r.Some? ==>
      |r.value| > 0 && (forall c :: c in r.value ==> !IsSpace(c)) &&
      OccursAt(s, r.value, LeadingSpaces(s)) &&
      (LeadingSpaces(s) + |r.value| == |s| || IsSpace(s[LeadingSpaces(s) + |r.value|]))
  {
    var k := LeadingSpaces(s);
    if k == |s| then None
    else
      var e := WordEnd(s, k);
      assert forall c :: c in s[k..e] ==> !IsSpace(c) by {
        forall c | c in s[k..e]
          ensures !IsSpace(c)
        {
          var j :| 0 <= j < e - k && s[k..e][j] == c;
          assert s[k + j] == c;
        }
      }
      Some(s[k..e])
  }

  /** The first word of each comma-separated piece, failing on the first blank piece. */
  function Words(pieces: seq<string>): (r: Result<seq<string>, string>)
    ensures r.Success? <==> forall i :: 0 <= i < |pieces| ==> FirstWord(pieces[i]).Some?
    ensures r.Success? ==> |r.value| == |pieces| && forall i :: 0 <= i < |pieces| ==> FirstWord(pieces[i]) == Some(r.value[i])
  {
    if |pieces| == 0 then Success([])
    else
      match FirstWord(pieces[0])
      case None => Failure("IndexError: list index out of range")
      case Some(w) =>
        match Words(pieces[1..])
        case Failure(e) => Failure(e)
        case Success(rest) => Success([w] + rest)
  }

  /** The field names of a definition: `[f.split()[0].strip() for f in definition.split(',')]`. */
  function FieldNames(definition: string): Result<seq<string>, string>
  {
    Words(Split(definition, ','))
  }

  /**
   * One name per comma-separated entry, in order, each the entry's first
   * word; the names hold neither a comma nor white space, and the
   * definition fails exactly when an entry is blank.
   */
  lemma FieldNamesMeaning(definition: string)
    ensures var pieces := Split(definition, ',');
      (FieldNames(definition).Failure? <==> exists i :: 0 <= i < |pieces| && FirstWord(pieces[i]).None?) &&
      (FieldNames(definition).Success? ==>
        var names := FieldNames(definition).value;
        |names| == |pieces| && |names| > 0 &&
        forall i :: 0 <= i < |names| ==>
          FirstWord(pieces[i]) == Some(names[i]) && ',' !in names[i] && |names[i]| > 0 && ' ' !in names[i])
  {
    var pieces := Split(definition, ',');
    if FieldNames(definition).Failure? {
      var i :| 0 <= i < |pieces| && !FirstWord(pieces[i]).Some?;
      assert FirstWord(pieces[i]).None?;
    }
    if FieldNames(definition).Success? {
      var names := FieldNames(definition).value;
      forall i | 0 <= i < |names|
        ensures ',' !in names[i] && ' ' !in names[i]
      {
        assert pieces[i] in pieces;
        WordOfPiece(pieces[i], names[i]);
      }
    }
  }

  /** The first word of a piece without commas has neither a comma nor a space. */
  lemma WordOfPiece(piece: string, w: string)
    requires ',' !in piece && FirstWord(piece) == Some(w)
    ensures ',' !in w && ' ' !in w
  {
    var k := LeadingSpaces(piece);
    assert w == piece[k..k + |w|];
    assert IsSpace(' ');
  }

  /** The first word of an entry made of white space, a word, then nothing or white space and more. */
  lemma WordAfterSpaces(s: string, lead: string, w: string, tail: string)
    requires s == lead + w + tail
    requires forall j :: 0 <= j < |lead| ==> IsSpace(lead[j])
    requires |w| > 0 && forall j :: 0 <= j < |w| ==> !IsSpace(w[j])
    requires |tail| == 0 || IsSpace(tail[0])
    ensures FirstWord(s) == Some(w)
  {
    LeadingSpacesAt(s, |lead|);
    WordEndAt(s, |lead|, |lead| + |w|);
    assert s[|lead|..|lead| + |w|] == w;
  }

  /** The white space that starts `s` ends at `k` when a non-space character (or the end) follows. */
  lemma {:induction false} LeadingSpacesAt(s: string, k: nat)
    requires k <= |s| && (forall j :: 0 <= j < k ==> IsSpace(s[j])) && (k == |s| || !IsSpace(s[k]))
    ensures LeadingSpaces(s) == k
  {
    if k > 0 {
      LeadingSpacesAt(s[1..], k - 1);
    }
  }

  /** The word that starts at `k` runs to `e` when no space lies between and one (or the end) follows. */
  lemma {:induction false} WordEndAt(s: string, k: nat, e: nat)
    requires k <= e <= |s| && (forall j :: k <= j < e ==> !IsSpace(s[j])) && (e == |s| || IsSpace(s[e]))
    ensures WordEnd(s, k) == e
    decreases e - k
  {
    if k < e {
      WordEndAt(s, k + 1, e);
    }
  }

  /** A definition whose entries start with the given names yields those names, in order. */
  lemma {:induction false} DefinitionNames(pieces: seq<string>, names: seq<string>)
    requires |pieces| > 0 && |names| == |pieces|
    requires forall i :: 0 <= i < |pieces| ==> ',' !in pieces[i] && FirstWord(pieces[i]) == Some(names[i])
    ensures FieldNames(Join([','], pieces)) == Success(names)
  {
    forall p | p in pieces
      ensures ',' !in p
    {
      var i :| 0 <= i < |pieces| && pieces[i] == p;
    }
    JoinSplit(pieces, ',');
    WordsOf(pieces, names);
  }

  lemma {:induction false} WordsOf(pieces: seq<string>, names: seq<string>)
    requires |names| == |pieces|
    requires forall i :: 0 <= i < |pieces| ==> FirstWord(pieces[i]) == Some(names[i])
    ensures Words(pieces) == Success(names)
  {
    if |pieces| > 0 {
      WordsOf(pieces[1..], names[1..]);
      assert names == [names[0]] + names[1..];
    }
  }

  /** The definition `TABLES` gives `formation`, as its two comma-separated entries. */
  lemma FormationDefinition()
    ensures TABLE_DEFINITIONS[2] == ("formation", Join([','], ["code integer", " comments varchar"]))
  {
    JoinCons([','], "code integer", [" comments varchar"]);
    assert ["code integer"] + [" comments varchar"] == ["code integer", " comments varchar"];
    assert Join([','], [" comments varchar"]) == " comments varchar";
    assert "code integer" + [','] + " comments varchar" == "code integer, comments varchar";
  }

  /** The two entries of the definition, cut around their names. */
  lemma FormationEntries()
    ensures "code integer" == "" + "code" + " integer"
    ensures " comments varchar" == " " + "comments" + " varchar"
    ensures ',' !in "code integer" && ',' !in " comments varchar"
  {
  }

  /** The definition of `formation`, `lithology` and `facies` gives the names `code` and `comments`. */
  lemma FormationFields()
    ensures FieldNames(Join([','], ["code integer", " comments varchar"])) == Success(["code", "comments"])
  {
    var pieces, names := ["code integer", " comments varchar"], ["code", "comments"];
    FormationWords(pieces, names);
    DefinitionNames(pieces, names);
  }

  /** Each entry of the `formation` definition holds no comma and starts with its name. */
  lemma FormationWords(pieces: seq<string>, names: seq<string>)
    requires pieces == ["code integer", " comments varchar"] && names == ["code", "comments"]
    ensures |names| == |pieces|
    ensures forall i :: 0 <= i < |pieces| ==> ',' !in pieces[i] && FirstWord(pieces[i]) == Some(names[i])
  {
    CodeWord();
    CommentsWord();
    forall i | 0 <= i < |pieces|
      ensures ',' !in pieces[i] && FirstWord(pieces[i]) == Some(names[i])
    {
      if i == 0 {
        assert pieces[0] == "code integer" && names[0] == "code";
      } else {
        assert pieces[1] == " comments varchar" && names[1] == "comments";
      }
    }
  }

  lemma CodeWord()
    ensures ',' !in "code integer" && FirstWord("code integer") == Some("code")
  {
    FormationEntries();
    WordAfterSpaces("code integer", "", "code", " integer");
  }

  lemma CommentsWord()
    ensures ',' !in " comments varchar" && FirstWord(" comments varchar") == Some("comments")
  {
    FormationEntries();
    WordAfterSpaces(" comments varchar", " ", "comments", " varchar");
  }

  // ---------------------------------------------------------------- derived fragments

  /** `f.replace(' ', '')`. */
  function RemoveSpaces(f: string): (r: string)
    ensures ' ' !in r
    ensures ' ' !in f ==> r == f
  {
    if |f| == 0 then ""
    else (if f[0] == ' ' then "" else [f[0]]) + RemoveSpaces(f[1..])
  }

  /** `FIELDS`: the names joined by `', '`. */
  function FieldList(fields: seq<string>): string
  {
    Join(", ", fields)
  }

  /** The `t.`-qualified names. */
  function Qualified(fields: seq<string>): (r: seq<string>)
    ensures |r| == |fields| && forall i :: 0 <= i < |fields| ==> r[i] == "t." + RemoveSpaces(fields[i])
  {
    seq(|fields|, i requires 0 <= i < |fields| => "t." + RemoveSpaces(fields[i]))
  }

  /** `T_FIELDS`: the `t.`-qualified names joined by `', '`. */
  function TFields(fields: seq<string>): string
  {
    Join(", ", Qualified(fields))
  }

  /** One ` %s` per field. */
  function Placeholders(fields: seq<string>): (r: seq<string>)
    ensures |r| == |fields| && forall i :: 0 <= i < |fields| ==> r[i] == " %s"
  {
    seq(|fields|, i requires 0 <= i < |fields| => " %s")
  }

  /** `FORMAT`: the placeholders joined by `','`. */
  function Format(fields: seq<string>): string
  {
    Join(",", Placeholders(fields))
  }

  /** `new.f` per field. */
  function NewNames(fields: seq<string>): (r: seq<string>)
    ensures |r| == |fields| && forall i :: 0 <= i < |fields| ==> r[i] == "new." + fields[i]
  {
    seq(|fields|, i requires 0 <= i < |fields| => "new." + fields[i])
  }

  /** `NEW_FIELDS`: the `new.`-qualified names joined by `','`. */
  function NewFields(fields: seq<string>): string
  {
    Join(",", NewNames(fields))
  }

  /** `f=new.f` per field. */
  function Assignments(fields: seq<string>): (r: seq<string>)
    ensures |r| == |fields| && forall i :: 0 <= i < |fields| ==> r[i] == fields[i] + "=new." + fields[i]
  {
    seq(|fields|, i requires 0 <= i < |fields| => fields[i] + "=new." + fields[i])
  }

  /** `SET_FIELDS`: the assignments joined by `','`. */
  function SetFields(fields: seq<string>): string
  {
    Join(",", Assignments(fields))
  }

  /** The names qualify unchanged: a name has no space for `replace` to remove. */
  lemma QualifiedNames(fields: seq<string>)
    requires forall f :: f in fields ==> ' ' !in f
    ensures Qualified(fields) == seq(|fields|, i requires 0 <= i < |fields| => "t." + fields[i])
  {
    forall i | 0 <= i < |fields|
      ensures Qualified(fields)[i] == "t." + fields[i]
    {
      assert fields[i] in fields;
    }
  }

  /** Pieces without a comma come back from splitting their comma join. */
  lemma CommaFree(pieces: seq<string>)
    requires |pieces| > 0 && forall i :: 0 <= i < |pieces| ==> ',' !in pieces[i]
    ensures Split(Join(",", pieces), ',') == pieces
  {
    forall p | p in pieces
      ensures ',' !in p
    {
      var i :| 0 <= i < |pieces| && pieces[i] == p;
    }
    JoinSplit(pieces, ',');
  }

  /**
   * The comma-joined fragments hold one entry per field, in the order of
   * the names: `FORMAT` exactly one ` %s` each, `NEW_FIELDS` `new.f` and
   * `SET_FIELDS` `f=new.f`.
   */
  lemma FragmentsPerField(fields: seq<string>)
    requires |fields| > 0 && forall i :: 0 <= i < |fields| ==> ',' !in fields[i]
    ensures Split(Format(fields), ',') == Placeholders(fields)
    ensures Split(NewFields(fields), ',') == NewNames(fields)
    ensures Split(SetFields(fields), ',') == Assignments(fields)
  {
    assert ',' !in " %s";
    CommaFree(Placeholders(fields));
    assert ',' !in "new.";
    forall i | 0 <= i < |fields|
      ensures ',' !in NewNames(fields)[i] && ',' !in Assignments(fields)[i]
    {
      assert ',' !in "=new.";
    }
    CommaFree(NewNames(fields));
    CommaFree(Assignments(fields));
  }

  /**
   * The dictionary `add_table` leaves: the five derived entries stored
   * over the old ones, everything else untouched.  A missing or
   * non-text definition, or a blank entry in it, fails before anything
   * is stored.
   */
  function Extended(entries: map<string, Value>): (r: Result<map<string, Value>, string>)
    ensures r.Success? ==> forall k :: k in entries ==> k in r.value
    ensures r.Success? ==> forall k :: k in entries && k !in {"FIELDS", "T_FIELDS", "FORMAT", "NEW_FIELDS", "SET_FIELDS"} ==> r.value[k] == entries[k]
    ensures r.Success? <==> "FIELDS_DEFINITION" in entries && entries["FIELDS_DEFINITION"].Text? && FieldNames(entries["FIELDS_DEFINITION"].text).Success?
  {
    if "FIELDS_DEFINITION" !in entries then Failure("KeyError: FIELDS_DEFINITION")
    else if !entries["FIELDS_DEFINITION"].Text? then Failure("AttributeError: split")
    else
      match FieldNames(entries["FIELDS_DEFINITION"].text)
      case Failure(e) => Failure(e)
      case Success(fields) =>
        Success(entries["FIELDS" := Text(FieldList(fields))]
                       ["T_FIELDS" := Text(TFields(fields))]
                       ["FORMAT" := Text(Format(fields))]
                       ["NEW_FIELDS" := Text(NewFields(fields))]
                       ["SET_FIELDS" := Text(SetFields(fields))])
  }

  /** `add_table`, up to its SQL: the table's dictionary gains the derived entries in place. */
  method AddTable(table: Table) returns (r: Result<(), string>)
    modifies table
    ensures Extended(old(table.entries)).Success? ==> r.Success? && table.entries == Extended(old(table.entries)).value
    ensures Extended(old(table.entries)).Failure? ==> r.Failure? && table.entries == old(table.entries)
  {
    if "FIELDS_DEFINITION" !in table.entries {
      return Failure("KeyError: FIELDS_DEFINITION");
    }
    var definition := table.entries["FIELDS_DEFINITION"];
    if !definition.Text? {
      return Failure("AttributeError: split");
    }
    var names := FieldNames(definition.text);
    if names.Failure? {
      return Failure(names.error);
    }
    var fields := names.value;
    table.entries := table.entries["FIELDS" := Text(FieldList(fields))];
    table.entries := table.entries["T_FIELDS" := Text(TFields(fields))];
    table.entries := table.entries["FORMAT" := Text(Format(fields))];
    table.entries := table.entries["NEW_FIELDS" := Text(NewFields(fields))];
    table.entries := table.entries["SET_FIELDS" := Text(SetFields(fields))];
    r := Success(());
  }

  /** The dictionary of a table once `create` has given it the SRID and added it. */
  function Created(entries: map<string, Value>, srid: int): Result<map<string, Value>, string>
  {
    Extended(entries["SRID" := Number(srid)])
  }

  /** A created table keeps its SRID: the derived entries do not overwrite it. */
  lemma CreatedKeepsSrid(entries: map<string, Value>, srid: int)
    requires Created(entries, srid).Success?
    ensures "SRID" in Created(entries, srid).value && Created(entries, srid).value["SRID"] == Number(srid)
  {
  }

  /** `now` is what `create` makes of a table whose dictionary was `before`. */
  ghost predicate IsCreated(now: map<string, Value>, before: map<string, Value>, srid: int)
  {
    Created(before, srid).Success? && now == Created(before, srid).value
  }

  /** One pass of `create`'s loop: the SRID, then `add_table`. */
  method CreateOne(table: Table, srid: int) returns (r: Result<(), string>)
    modifies table
    ensures r.Success? <==> Created(old(table.entries), srid).Success?
    ensures r.Success? ==> IsCreated(table.entries, old(table.entries), srid)
    ensures r.Failure? ==> table.entries == old(table.entries)["SRID" := Number(srid)]
  {
    table.entries := table.entries["SRID" := Number(srid)];
    r := AddTable(table);
  }

  /** `CreateOne` on table `p` of a list of distinct tables: the others stay as they were. */
  method CreateAt(tables: seq<Table>, p: int, srid: int) returns (r: Result<(), string>)
    requires NoDup(tables) && 0 <= p < |tables|
    modifies tables[p]
    ensures r.Success? <==> Created(old(tables[p].entries), srid).Success?
    ensures r.Success? ==> IsCreated(tables[p].entries, old(tables[p].entries), srid)
    ensures r.Failure? ==> tables[p].entries == old(tables[p].entries)["SRID" := Number(srid)]
    ensures forall i :: 0 <= i < |tables| && i != p ==> tables[i].entries == old(tables[i].entries)
  {
    NoDupOthers(tables, p);
    r := CreateOne(tables[p], srid);
  }

  /**
   * `create` stopped at table `f`: the tables before it were created, its
   * own definition failed after the SRID was set, the ones after it are
   * as they were.
   */
  twostate predicate Stopped(tables: seq<Table>, f: int, srid: int)
    reads set t | t in tables
  {
    0 <= f < |tables| && Created(old(tables[f].entries), srid).Failure? &&
    tables[f].entries == old(tables[f].entries)["SRID" := Number(srid)] &&
    (forall i :: 0 <= i < f ==> IsCreated(tables[i].entries, old(tables[i].entries), srid)) &&
    (forall i :: f < i < |tables| ==> tables[i].entries == old(tables[i].entries))
  }

  /**
   * The loop of `create` over `TABLES`: each table is given the SRID and
   * added in turn; a table whose definition fails stops the loop, with
   * the SRID already set on it and the tables after it untouched.
   */
  method Create(tables: seq<Table>, srid: int) returns (r: Result<(), string>)
    requires NoDup(tables)
    modifies set t | t in tables
    ensures r.Success? ==> forall i :: 0 <= i < |tables| ==> IsCreated(tables[i].entries, old(tables[i].entries), srid)
    ensures r.Failure? ==> exists f :: 0 <= f < |tables| && Stopped(tables, f, srid)
  {
    for p := 0 to |tables|
      invariant forall i :: 0 <= i < p ==> IsCreated(tables[i].entries, old(tables[i].entries), srid)
      invariant forall i :: p <= i < |tables| ==> tables[i].entries == old(tables[i].entries)
    {
      r := CreateAt(tables, p, srid);
      if r.Failure? {
        assert Stopped(tables, p, srid);
        return;
      }
    }
    r := Success(());
  }
}
