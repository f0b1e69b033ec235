/**
 * The string side of qgis_hal.py: attribute names are fixed up against
 * the layer's fields (QGIS may have imported an integer column as
 * `name:Integer64(10,0)`), several attribute dictionaries are merged, and
 * a QGIS filter expression is built from the result.  A layer is its list
 * of field names (and, for custom properties, a map); a dictionary is an
 * association list in its iteration order, with values already turned
 * into their string form.
 */
module QgisHal {
  import opened Wrappers
  import opened Sequences

  /** The suffix QGIS gives a 64-bit integer column. */
  const INTEGER64_SUFFIX := ":Integer64(10,0)"

  /** A dictionary in iteration order. */
  type Assoc<V> = seq<(string, V)>

  function Keys<V>(d: Assoc<V>): (r: seq<string>)
    ensures |r| == |d| && forall i :: 0 <= i < |d| ==> r[i] == d[i].0
  {
    seq(|d|, i requires 0 <= i < |d| => d[i].0)
  }

  /** `d[k]`, or `None` when `k` is not a key. */
  function Lookup<V>(d: Assoc<V>, k: string): Option<V>
  {
    if |d| == 0 then None
    else if d[|d| - 1].0 == k then Some(d[|d| - 1].1)
    else Lookup(d[..|d| - 1], k)
  }

  /** `d[k] = v`: a known key keeps its place and takes the new value, a new key goes last. */
  function Put<V>(d: Assoc<V>, k: string, v: V): Assoc<V>
  {
    if k in Keys(d) then d[IndexOf(Keys(d), k) := (k, v)] else d + [(k, v)]
  }

  lemma {:induction false} LookupAt<V>(d: Assoc<V>, i: int)
    requires NoDup(Keys(d)) && 0 <= i < |d|
    ensures Lookup(d, d[i].0) == Some(d[i].1)
  {
    var n := |d| - 1;
    if i < n {
      assert d[n].0 != d[i].0;
      assert Keys(d[..n]) == Keys(d)[..n];
      LookupAt(d[..n], i);
    }
  }

  lemma {:induction false} LookupAbsent<V>(d: Assoc<V>, k: string)
    requires k !in Keys(d)
    ensures Lookup(d, k) == None
  {
    if |d| > 0 {
      assert Keys(d[..|d| - 1]) == Keys(d)[..|d| - 1];
      LookupAbsent(d[..|d| - 1], k);
    }
  }

  /** A dictionary with distinct keys maps each key to its entry's value. */
  lemma LookupMeaning<V>(d: Assoc<V>, k: string)
    requires NoDup(Keys(d))
    ensures Lookup(d, k).Some? <==> k in Keys(d)
    ensures k in Keys(d) ==> Lookup(d, k) == Some(d[IndexOf(Keys(d), k)].1)
  {
    if k in Keys(d) {
      LookupAt(d, IndexOf(Keys(d), k));
    } else {
      LookupAbsent(d, k);
    }
  }

  /** Storing a value: the keys stay distinct, `k` reads the new value and every other key is untouched. */
  lemma PutLookup<V>(d: Assoc<V>, k: string, v: V, k': string)
    requires NoDup(Keys(d))
    ensures NoDup(Keys(Put(d, k, v)))
    ensures forall x :: x in Keys(Put(d, k, v)) <==> x in Keys(d) || x == k
    ensures Lookup(Put(d, k, v), k') == if k' == k then Some(v) else Lookup(d, k')
  {
    var d' := Put(d, k, v);
    if k in Keys(d) {
      var m := IndexOf(Keys(d), k);
      assert Keys(d') == Keys(d);
    } else {
      assert Keys(d') == Keys(d) + [k];
    }
    LookupMeaning(d, k');
    LookupMeaning(d', k');
  }

  // ---------------------------------------------------------------- field names

  /**
   * `__fixup_layer_attribute_name`: the name itself when the layer has
   * that field, otherwise the Integer64 variant when the layer has that
   * one, otherwise an error.
   */
  function FixupName(fields: seq<string>, name: string): (r: Result<string, string>)
    ensures r.Success? ==> r.value in fields
    ensures r.Success? <==> name in fields || name + INTEGER64_SUFFIX in fields
    ensures name in fields ==> r == Success(name)
    ensures name !in fields && name + INTEGER64_SUFFIX in fields ==> r == Success(name + INTEGER64_SUFFIX)
  {
    if name in fields then Success(name)
    else
      var patched := name + INTEGER64_SUFFIX;
      if patched in fields then Success(patched)
      else Failure("Invalid field name " + name)
  }

  /** The entries of the dictionaries, fixed and stored one after the other; the first bad name fails. */
  function Merge<V>(fields: seq<string>, entries: Assoc<V>): Result<Assoc<V>, string>
  {
    if |entries| == 0 then Success([])
    else
      var e := entries[|entries| - 1];
      match Merge(fields, entries[..|entries| - 1])
      case Failure(err) => Failure(err)
      case Success(d) =>
        match FixupName(fields, e.0)
        case Failure(err) => Failure(err)
        case Success(k) => Success(Put(d, k, e.1))
  }

  /** One more entry: the merge so far, then that entry's fixed name stored. */
  lemma MergeSnoc<V>(fields: seq<string>, entries: Assoc<V>, e: (string, V))
    ensures Merge(fields, entries + [e]) ==
      match Merge(fields, entries)
      case Failure(err) => Failure(err)
      case Success(d) =>
        match FixupName(fields, e.0)
        case Failure(err) => Failure(err)
        case Success(k) => Success(Put(d, k, e.1))
  {
    assert (entries + [e])[..|entries|] == entries;
  }

  /** One name of a dictionary: fixed, then stored in the result. */
  method MergeEntry<V>(fields: seq<string>, result: Assoc<V>, e: (string, V), ghost done: Assoc<V>)
    returns (r: Result<Assoc<V>, string>)
    requires Merge(fields, done) == Success(result)
    ensures r == Merge(fields, done + [e])
  {
    MergeSnoc(fields, done, e);
    var fixed := FixupName(fields, e.0);
    if fixed.Failure? {
      return Failure(fixed.error);
    }
    r := Success(Put(result, fixed.value, e.1));
  }

  /** The entries merge into `d`. */
  ghost predicate MergedTo<V>(fields: seq<string>, entries: Assoc<V>, d: Assoc<V>)
  {
    Merge(fields, entries) == Success(d)
  }

  /** The inner loop of `__fixup_layer_attribute_names`: the names of one dictionary. */
  method MergeDict<V>(fields: seq<string>, result0: Assoc<V>, arg: Assoc<V>, ghost before: Assoc<V>)
    returns (r: Result<Assoc<V>, string>)
    requires Merge(fields, before) == Success(result0)
    ensures r == Merge(fields, before + arg)
  {
    var result := result0;
    assert before + arg[..0] == before;
    for j := 0 to |arg|
      invariant MergedTo(fields, before + arg[..j], result)
    {
      PrefixSnoc(before, arg, j);
      var m := MergeEntry(fields, result, arg[j], before + arg[..j]);
      if m.Failure? {
        MergeFailsOn(fields, before + arg[..j + 1], before + arg);
        return m;
      }
      result := m.value;
    }
    assert arg[..|arg|] == arg;
    r := Success(result);
  }

  /** One more element of `arg` extends the prefix by it, and stays a prefix of `before + arg`. */
  lemma PrefixSnoc<V>(before: Assoc<V>, arg: Assoc<V>, j: int)
    requires 0 <= j < |arg|
    ensures before + arg[..j + 1] == before + arg[..j] + [arg[j]]
    ensures before + arg[..j + 1] <= before + arg
  {
    assert arg[..j + 1] == arg[..j] + [arg[j]];
  }

  /** Once a prefix of the entries fails, so does everything after it. */
  lemma {:induction false} MergeFailsOn<V>(fields: seq<string>, prefix: Assoc<V>, entries: Assoc<V>)
    requires prefix <= entries && Merge(fields, prefix).Failure?
    ensures Merge(fields, entries) == Merge(fields, prefix)
    decreases |entries|
  {
    if |entries| > |prefix| {
      assert prefix <= entries[..|entries| - 1];
      MergeFailsOn(fields, prefix, entries[..|entries| - 1]);
    } else {
      assert entries == prefix;
    }
  }

  /**
   * `__fixup_layer_attribute_names`: all dictionaries merged under their
   * fixed names, failing on the first name the layer does not know.
   */
  method FixupNames<V>(fields: seq<string>, dicts: seq<Assoc<V>>) returns (r: Result<Assoc<V>, string>)
    ensures r == Merge(fields, Flatten(dicts))
  {
    var result: Assoc<V> := [];
    for i := 0 to |dicts|
      invariant Merge(fields, Flatten(dicts[..i])) == Success(result)
    {
      assert dicts[..i + 1][..i] == dicts[..i];
      var m := MergeDict(fields, result, dicts[i], Flatten(dicts[..i]));
      if m.Failure? {
        FlattenPrefix(dicts, i + 1);
        MergeFailsOn(fields, Flatten(dicts[..i + 1]), Flatten(dicts));
        return m;
      }
      result := m.value;
    }
    assert dicts[..|dicts|] == dicts;
    r := Success(result);
  }

  /** The fixed name of entry `i` is not fixed again by a later entry. */
  ghost predicate LastFixing<V>(fields: seq<string>, entries: Assoc<V>, i: int)
    requires 0 <= i < |entries|
  {
    FixupName(fields, entries[i].0).Success? &&
    forall j :: i < j < |entries| ==> FixupName(fields, entries[j].0) != FixupName(fields, entries[i].0)
  }

  /** The merge fails exactly when some name cannot be fixed. */
  lemma {:induction false} MergeFailure<V>(fields: seq<string>, entries: Assoc<V>)
    ensures Merge(fields, entries).Failure? <==> exists i :: 0 <= i < |entries| && FixupName(fields, entries[i].0).Failure?
  {
    if |entries| > 0 {
      var n := |entries| - 1;
      var prefix := entries[..n];
      MergeFailure(fields, prefix);
      if Merge(fields, prefix).Failure? {
        var i :| 0 <= i < n && FixupName(fields, prefix[i].0).Failure?;
        assert entries[i] == prefix[i];
      } else {
        forall i | 0 <= i < n
          ensures FixupName(fields, entries[i].0).Success?
        {
          assert entries[i] == prefix[i];
        }
      }
    }
  }

  /** Some entry's name is fixed to `k`. */
  ghost predicate FixedName<V>(fields: seq<string>, entries: Assoc<V>, k: string)
  {
    exists i :: 0 <= i < |entries| && FixupName(fields, entries[i].0) == Success(k)
  }

  /** The names fixed by the entries are those fixed by all but the last, and the last one's. */
  lemma FixedNameSnoc<V>(fields: seq<string>, entries: Assoc<V>, k: string)
    requires |entries| > 0
    ensures FixedName(fields, entries, k) <==>
      FixedName(fields, entries[..|entries| - 1], k) || FixupName(fields, entries[|entries| - 1].0) == Success(k)
  {
    var n := |entries| - 1;
    if FixedName(fields, entries, k) {
      var i :| 0 <= i < |entries| && FixupName(fields, entries[i].0) == Success(k);
      if i < n {
        assert entries[..n][i] == entries[i];
      }
    }
    if FixedName(fields, entries[..n], k) {
      var i :| 0 <= i < n && FixupName(fields, entries[..n][i].0) == Success(k);
      assert entries[i] == entries[..n][i];
    }
  }

  /** A successful merge has distinct keys, exactly the fixed names. */
  lemma {:induction false} MergeKeys<V>(fields: seq<string>, entries: Assoc<V>)
    requires Merge(fields, entries).Success?
    ensures NoDup(Keys(Merge(fields, entries).value))
    ensures forall k :: k in Keys(Merge(fields, entries).value) <==> FixedName(fields, entries, k)
  {
    if |entries| > 0 {
      var n := |entries| - 1;
      var prefix, e := entries[..n], entries[n];
      MergeKeys(fields, prefix);
      var d := Merge(fields, prefix).value;
      var k := FixupName(fields, e.0).value;
      PutLookup(d, k, e.1, k);
      forall k' ensures k' in Keys(Put(d, k, e.1)) <==> FixedName(fields, entries, k')
      {
        FixedNameSnoc(fields, entries, k');
      }
    }
  }

  /** The last entry fixed to a name gives that name its value: later dictionaries override earlier ones. */
  lemma {:induction false} MergeValue<V>(fields: seq<string>, entries: Assoc<V>, i: int)
    requires Merge(fields, entries).Success?
    requires 0 <= i < |entries| && LastFixing(fields, entries, i)
    ensures Lookup(Merge(fields, entries).value, FixupName(fields, entries[i].0).value) == Some(entries[i].1)
  {
    var n := |entries| - 1;
    var prefix, e := entries[..n], entries[n];
    var d := Merge(fields, prefix).value;
    var k := FixupName(fields, e.0).value;
    MergeKeys(fields, prefix);
    PutLookup(d, k, e.1, FixupName(fields, entries[i].0).value);
    if i < n {
      assert prefix[i] == entries[i];
      assert LastFixing(fields, prefix, i);
      MergeValue(fields, prefix, i);
    }
  }

  /**
   * What the merge means: it fails exactly when some name cannot be fixed;
   * otherwise its keys are distinct, are exactly the fixed names, and each
   * holds the value of the last entry fixed to it, so a later dictionary
   * overrides an earlier one.
   */
  lemma MergeMeaning<V>(fields: seq<string>, entries: Assoc<V>)
    ensures Merge(fields, entries).Failure? <==> exists i :: 0 <= i < |entries| && FixupName(fields, entries[i].0).Failure?
    ensures Merge(fields, entries).Success? ==>
      var d := Merge(fields, entries).value;
      NoDup(Keys(d)) &&
      (forall k :: k in Keys(d) <==> exists i :: 0 <= i < |entries| && FixupName(fields, entries[i].0) == Success(k)) &&
      forall i :: 0 <= i < |entries| && LastFixing(fields, entries, i) ==>
        Lookup(d, FixupName(fields, entries[i].0).value) == Some(entries[i].1)
  {
    MergeFailure(fields, entries);
    if Merge(fields, entries).Success? {
      MergeKeys(fields, entries);
      forall i | 0 <= i < |entries| && LastFixing(fields, entries, i)
        ensures Lookup(Merge(fields, entries).value, FixupName(fields, entries[i].0).value) == Some(entries[i].1)
      {
        MergeValue(fields, entries, i);
      }
    }
  }

  // ---------------------------------------------------------------- expressions

  /** `"attr" = 'value'`. */
  function Term(attr: string, value: string): string
  {
    "\"" + attr + "\" = '" + value + "'"
  }

  /**
   * How the terms become the filter, as the source has it: with a single
   * dictionary only the first term is used (and there is none to use when
   * that dictionary is empty); otherwise the terms are joined with AND.
   */
  function CombineAsWritten(argCount: nat, expr: seq<string>): (r: Result<string, string>)
    ensures argCount != 1 ==> r == Success(Combine(expr))
    ensures argCount == 1 ==> (r.Failure? <==> |expr| == 0) && (r.Success? ==> r.value == expr[0])
  {
    if argCount == 1 then
      if |expr| == 0 then Failure("IndexError") else Success(expr[0])
    else Success(Join(" AND ", expr))
  }

  /** The filter every caller expects: all the terms, joined with AND. */
  function Combine(expr: seq<string>): string
  {
    Join(" AND ", expr)
  }

  /** The corrected filter holds the term of every attribute. */
  lemma CombineHasEveryTerm(expr: seq<string>, i: int)
    requires 0 <= i < |expr|
    ensures exists k :: OccursAt(Combine(expr), expr[i], k)
  {
    JoinHasEveryPart(" AND ", expr, i);
    var k :| OccursAt(Join(" AND ", expr), expr[i], k);
    assert OccursAt(Combine(expr), expr[i], k);
  }

  /**
   * With one dictionary of several attributes, the source filters on the
   * first one alone: the AND of all of them is a longer expression.
   */
  lemma SingleDictDropsTerms(expr: seq<string>)
    requires |expr| >= 2
    ensures CombineAsWritten(1, expr) == Success(expr[0])
    ensures Combine(expr) != expr[0]
  {
    JoinLonger(" AND ", expr);
  }

  /**
   * The source's combination gives the AND of all the terms exactly when
   * more than one dictionary is passed or the single one has exactly one
   * attribute.
   */
  lemma AsWrittenAgreement(argCount: nat, expr: seq<string>)
    ensures CombineAsWritten(argCount, expr) == Success(Combine(expr)) <==> argCount != 1 || |expr| == 1
  {
    if argCount == 1 && |expr| >= 2 {
      SingleDictDropsTerms(expr);
    }
  }

  /**
   * The call in graph_operations.py that looks for an existing edge passes
   * one dictionary with `start` and `end`.  Whichever of the two keys the
   * dictionary yields first, the source's filter tests that key alone.
   */
  lemma StartEndExample(fields: seq<string>, d: Assoc<string>)
    requires fields == ["start", "end"]
    requires d == [("start", "1"), ("end", "2")] || d == [("end", "2"), ("start", "1")]
    ensures Merge(fields, d) == Success(d)
    ensures var expr := [Term(d[0].0, d[0].1), Term(d[1].0, d[1].1)];
      CombineAsWritten(1, expr) == Success(expr[0]) && Combine(expr) != expr[0]
  {
    var none: Assoc<string> := [];
    assert Keys(none) == [];
    MergeSnoc(fields, none, d[0]);
    assert none + [d[0]] == [d[0]];
    assert Merge(fields, [d[0]]) == Success([d[0]]);
    MergeSnoc(fields, [d[0]], d[1]);
    assert Keys([d[0]]) == [d[0].0];
    assert "end" != "start";
    assert [d[0]] + [d[1]] == d;
    SingleDictDropsTerms([Term(d[0].0, d[0].1), Term(d[1].0, d[1].1)]);
  }

  /** One term per fixed attribute, in dictionary order. */
  method Terms(fixed: Assoc<string>) returns (expr: seq<string>)
    ensures |expr| == |fixed| && forall i :: 0 <= i < |fixed| ==> expr[i] == Term(fixed[i].0, fixed[i].1)
  {
    expr := [];
    for i := 0 to |fixed|
      invariant |expr| == i && forall j :: 0 <= j < i ==> expr[j] == Term(fixed[j].0, fixed[j].1)
    {
      var (attr, value) := fixed[i];
      expr := expr + [Term(attr, value)];
    }
  }

  /**
   * The filter expression of `query_layer_features_by_attributes`: at
   * least one dictionary is required, the names are fixed and merged, one
   * term per attribute, and the terms are joined with AND (the corrected
   * `Combine`; the source's single-dictionary shortcut is
   * `CombineAsWritten`).
   */
  method QueryByAttributes(fields: seq<string>, dicts: seq<Assoc<string>>) returns (r: Result<string, string>)
    ensures |dicts| == 0 ==> r.Failure?
    ensures |dicts| > 0 ==>
      match Merge(fields, Flatten(dicts))
      case Failure(e) => r == Failure(e)
      case Success(d) => r == Success(Combine(seq(|d|, i requires 0 <= i < |d| => Term(d[i].0, d[i].1))))
  {
    if |dicts| == 0 {
      return Failure("AssertionError");
    }
    var fixed := FixupNames(fields, dicts);
    if fixed.Failure? {
      return Failure(fixed.error);
    }
    var d := fixed.value;
    var expr := Terms(d);
    assert expr == seq(|d|, i requires 0 <= i < |d| => Term(d[i].0, d[i].1));
    r := Success(Combine(expr));
  }

  /**
   * `query_layer_features_by_attributes` as written: with a single
   * dictionary the filter is its first term alone, and an empty dictionary
   * has no first term.
   */
  method QueryByAttributesAsWritten(fields: seq<string>, dicts: seq<Assoc<string>>) returns (r: Result<string, string>)
    ensures |dicts| == 0 ==> r.Failure?
    ensures |dicts| > 0 ==>
      match Merge(fields, Flatten(dicts))
      case Failure(e) => r == Failure(e)
      case Success(d) =>
        (|dicts| > 1 ==> r == Success(Combine(seq(|d|, i requires 0 <= i < |d| => Term(d[i].0, d[i].1))))) &&
        (|dicts| == 1 && |d| == 0 ==> r == Failure("IndexError")) &&
        (|dicts| == 1 && |d| > 0 ==> r == Success(Term(d[0].0, d[0].1)))
  {
    if |dicts| == 0 {
      return Failure("AssertionError");
    }
    var fixed := FixupNames(fields, dicts);
    if fixed.Failure? {
      return Failure(fixed.error);
    }
    var d := fixed.value;
    var expr := Terms(d);
    assert expr == seq(|d|, i requires 0 <= i < |d| => Term(d[i].0, d[i].1));
    r := CombineAsWritten(|dicts|, expr);
  }

  /** `str(v)` of each value quoted and followed by a comma, as the `_in` loop accumulates it. */
  function QuotedList(values: seq<string>): string
  {
    if |values| == 0 then "" else QuotedList(values[..|values| - 1]) + Quote(values[|values| - 1]) + ","
  }

  /** `ex[0:-1]`: all but the last character, and the empty string stays empty. */
  function DropLastChar(s: string): string
  {
    if |s| == 0 then "" else s[..|s| - 1]
  }

  /** `"attr" IN ('v1','v2',...)`. */
  function InTerm(attr: string, values: seq<string>): string
  {
    "\"" + attr + "\" IN (" + DropLastChar(QuotedList(values)) + ")"
  }

  /** `'v'`. */
  function Quote(v: string): string
  {
    "'" + v + "'"
  }

  /** The values quoted one by one. */
  function Quoted(values: seq<string>): (r: seq<string>)
    ensures |r| == |values| && forall i :: 0 <= i < |values| ==> r[i] == Quote(values[i])
  {
    seq(|values|, i requires 0 <= i < |values| => Quote(values[i]))
  }

  /** The accumulated string of a non-empty list ends with the comma that `[0:-1]` removes. */
  lemma QuotedListEndsWithComma(values: seq<string>)
    requires |values| > 0
    ensures QuotedList(values) == DropLastChar(QuotedList(values)) + ","
    ensures DropLastChar(QuotedList(values)) == QuotedList(values[..|values| - 1]) + Quote(values[|values| - 1])
  {
    var x := QuotedList(values[..|values| - 1]) + Quote(values[|values| - 1]);
    assert (x + ",")[..|x|] == x;
  }

  /**
   * Dropping the trailing comma leaves the quoted values joined by commas;
   * an empty value list gives `IN ()`.
   */
  lemma {:induction false} InListIsJoin(values: seq<string>)
    ensures DropLastChar(QuotedList(values)) == Join(",", Quoted(values))
  {
    var n := |values|;
    if n > 1 {
      var p := values[..n - 1];
      InListIsJoin(p);
      assert Quoted(values)[..n - 1] == Quoted(p);
      QuotedListEndsWithComma(p);
      QuotedListEndsWithComma(values);
    } else if n == 1 {
      QuotedListEndsWithComma(values);
      assert values[..0] == [];
    }
  }

  /** The `IN` term of one attribute, built by the inner loop. */
  method BuildInTerm(attr: string, values: seq<string>) returns (term: string)
    ensures term == InTerm(attr, values)
  {
    var ex := "";
    for k := 0 to |values|
      invariant ex == QuotedList(values[..k])
    {
      assert values[..k + 1][..k] == values[..k];
      ex := ex + Quote(values[k]) + ",";
    }
    assert values[..|values|] == values;
    term := "\"" + attr + "\" IN (" + (if |ex| == 0 then "" else ex[0..|ex| - 1]) + ")";
  }

  /** One `IN` term per fixed attribute, in dictionary order. */
  method InTerms(fixed: Assoc<seq<string>>) returns (expr: seq<string>)
    ensures |expr| == |fixed| && forall i :: 0 <= i < |fixed| ==> expr[i] == InTerm(fixed[i].0, fixed[i].1)
  {
    expr := [];
    for i := 0 to |fixed|
      invariant |expr| == i && forall j :: 0 <= j < i ==> expr[j] == InTerm(fixed[j].0, fixed[j].1)
    {
      var term := BuildInTerm(fixed[i].0, fixed[i].1);
      expr := expr + [term];
    }
  }

  /** `query_layer_features_by_attributes_in`: the same shape with `IN` terms, joined with AND. */
  method QueryByAttributesIn(fields: seq<string>, dicts: seq<Assoc<seq<string>>>) returns (r: Result<string, string>)
    ensures |dicts| == 0 ==> r.Failure?
    ensures |dicts| > 0 ==>
      match Merge(fields, Flatten(dicts))
      case Failure(e) => r == Failure(e)
      case Success(d) => r == Success(Combine(seq(|d|, i requires 0 <= i < |d| => InTerm(d[i].0, d[i].1))))
  {
    if |dicts| == 0 {
      return Failure("AssertionError");
    }
    var fixed := FixupNames(fields, dicts);
    if fixed.Failure? {
      return Failure(fixed.error);
    }
    var d := fixed.value;
    var expr := InTerms(d);
    assert expr == seq(|d|, i requires 0 <= i < |d| => InTerm(d[i].0, d[i].1));
    r := Success(Combine(expr));
  }

  /** `query_layer_features_by_attributes_in` as written: the same single-dictionary shortcut. */
  method QueryByAttributesInAsWritten(fields: seq<string>, dicts: seq<Assoc<seq<string>>>) returns (r: Result<string, string>)
    ensures |dicts| == 0 ==> r.Failure?
    ensures |dicts| > 0 ==>
      match Merge(fields, Flatten(dicts))
      case Failure(e) => r == Failure(e)
      case Success(d) =>
        (|dicts| > 1 ==> r == Success(Combine(seq(|d|, i requires 0 <= i < |d| => InTerm(d[i].0, d[i].1))))) &&
        (|dicts| == 1 && |d| == 0 ==> r == Failure("IndexError")) &&
        (|dicts| == 1 && |d| > 0 ==> r == Success(InTerm(d[0].0, d[0].1)))
  {
    if |dicts| == 0 {
      return Failure("AssertionError");
    }
    var fixed := FixupNames(fields, dicts);
    if fixed.Failure? {
      return Failure(fixed.error);
    }
    var d := fixed.value;
    var expr := InTerms(d);
    assert expr == seq(|d|, i requires 0 <= i < |d| => InTerm(d[i].0, d[i].1));
    r := CombineAsWritten(|dicts|, expr);
  }

  // ---------------------------------------------------------------- properties

  /**
   * `layer_matches_all_properties`: every key's custom property (absent
   * is `None`) equals the wanted value.
   */
  method LayerMatchesAllProperties(custom: map<string, string>, properties: Assoc<string>) returns (r: bool)
    ensures r <==> forall i :: 0 <= i < |properties| ==> properties[i].0 in custom && custom[properties[i].0] == properties[i].1
  {
    for i := 0 to |properties|
      invariant forall j :: 0 <= j < i ==> properties[j].0 in custom && custom[properties[j].0] == properties[j].1
    {
      var (key, value) := properties[i];
      if key !in custom || custom[key] != value {
        return false;
      }
    }
    return true;
  }

  // ---------------------------------------------------------------- maximum

  /** The largest of the values. */
  function Max(values: seq<int>): (m: int)
    requires |values| > 0
    ensures m in values && forall i :: 0 <= i < |values| ==> values[i] <= m
  {
    if |values| == 1 then values[0]
    else
      var m := Max(values[1..]);
      if values[0] > m then values[0] else m
  }

  /**
   * `get_layer_max_feature_attribute` as written: it calls
   * `get_layer_unique_attribute` with the attribute alone, one argument
   * short, so every call raises a TypeError.
   */
  function MaxFeatureAttributeAsWritten(fields: seq<string>, attr: string, uniqueValues: seq<int>): (r: Result<int, string>)
    ensures r.Failure?
  {
    Failure("TypeError: get_layer_unique_attribute() takes exactly 2 arguments (1 given)")
  }

  /** Wherever the intended maximum exists, the source as written does not return it. */
  lemma AsWrittenAlwaysFails(fields: seq<string>, attr: string, uniqueValues: seq<int>)
    ensures MaxFeatureAttribute(fields, attr, uniqueValues).Success? ==>
      MaxFeatureAttributeAsWritten(fields, attr, uniqueValues) != MaxFeatureAttribute(fields, attr, uniqueValues)
  {
  }

  /**
   * The evident intent (the version under old/): the largest of the
   * attribute's unique values, or 0 when there are none; a field the
   * layer does not have fails as in the name fixup.
   */
  function MaxFeatureAttribute(fields: seq<string>, attr: string, uniqueValues: seq<int>): (r: Result<int, string>)
    ensures r.Failure? <==> FixupName(fields, attr).Failure?
    ensures r.Success? && |uniqueValues| == 0 ==> r.value == 0
    ensures r.Success? && |uniqueValues| > 0 ==> r.value in uniqueValues && forall v :: v in uniqueValues ==> v <= r.value
  {
    match FixupName(fields, attr)
    case Failure(e) => Failure(e)
    case Success(_) => Success(if |uniqueValues| > 0 then Max(uniqueValues) else 0)
  }
}
