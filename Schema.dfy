/** The schema check that runs right after the upload is read: which of the
    required column names the table lacks, and the error shown when any are
    lacking. */
module Schema {
  import opened Sequences
  import Text

  /** The ten column names the page needs, in the order it lists them. */
  const RequiredColumns: seq<string> :=
    ["timestamp", "city_name", "temperature", "humidity", "dew_point",
     "wind_speed", "cloudiness", "uv_index", "rain_volume", "snow_volume"]

  /** Text placed before the list of missing names in the error. */
  const MissingPrefix: string := "The following required columns are missing: "

  /** Separator between missing names in the error. */
  const NameSeparator: string := ", "

  /** The required names that are not among `columns`, in the order of
      `required` (the list comprehension over the required names). */
  function MissingColumns(required: seq<string>, columns: seq<string>): (missing: seq<string>)
    ensures forall c :: c in missing <==> c in required && c !in columns
    ensures IsSubsequence(missing, required)
    ensures |missing| <= |required|
    ensures missing == [] <==> forall c :: c in required ==> c in columns
    decreases |required|
  {
    if |required| == 0 then []
    else
      var rest := MissingColumns(required[1..], columns);
      assert forall c :: c in required <==> c == required[0] || c in required[1..];
      if required[0] in columns then
        assert IsSubsequence(rest, required);
        rest
      else
        assert ([required[0]] + rest)[1..] == rest;
        [required[0]] + rest
  }

  /** The missing names of an uploaded table with the given header. */
  function Missing(columns: seq<string>): (missing: seq<string>)
    ensures forall c :: c in missing <==> c in RequiredColumns && c !in columns
    ensures IsSubsequence(missing, RequiredColumns)
    ensures NoDuplicates(missing)
    ensures |missing| <= 10
  {
    RequiredColumnsNoDuplicates();
    MissingColumnsNoDuplicates(RequiredColumns, columns);
    MissingColumns(RequiredColumns, columns)
  }

  /** The error text shown when some required names are missing: the fixed
      prefix, then the names joined with ", ". When no name holds a comma,
      the part after the prefix splits back into exactly those names. */
  function MissingColumnsError(missing: seq<string>): (message: string)
    ensures |message| >= |MissingPrefix| && message[..|MissingPrefix|] == MissingPrefix
    ensures |missing| > 0 && (forall p :: p in missing ==> ',' !in p) ==>
              Text.Split(message[|MissingPrefix|..], NameSeparator) == missing
  {
    var message := MissingPrefix + Text.Join(missing, NameSeparator);
    assert message[|MissingPrefix|..] == Text.Join(missing, NameSeparator);
    if |missing| > 0 && (forall p :: p in missing ==> ',' !in p) then
      Text.SplitJoin(missing, NameSeparator);
      message
    else
      message
  }

  /** The page's required list names no column twice. */
  lemma RequiredColumnsNoDuplicates()
    ensures NoDuplicates(RequiredColumns)
  {
  }

  /** The missing list has no name twice when the required list has none. */
  lemma {:induction false} MissingColumnsNoDuplicates(required: seq<string>, columns: seq<string>)
    requires NoDuplicates(required)
    ensures NoDuplicates(MissingColumns(required, columns))
    decreases |required|
  {
    if |required| > 0 {
      var rest := MissingColumns(required[1..], columns);
      assert NoDuplicates(required[1..]) by {
        forall i, j | 0 <= i < j < |required[1..]| ensures required[1..][i] != required[1..][j] {
          assert required[1..][i] == required[i + 1] && required[1..][j] == required[j + 1];
        }
      }
      MissingColumnsNoDuplicates(required[1..], columns);
      if required[0] !in columns {
        var m := [required[0]] + rest;
        assert required[0] !in required[1..];
        assert required[0] !in rest;
        forall i, j | 0 <= i < j < |m| ensures m[i] != m[j] {
          if i == 0 {
            assert m[j] == rest[j - 1];
            assert m[j] in rest;
          } else {
            assert m[i] == rest[i - 1] && m[j] == rest[j - 1];
          }
        }
      }
    }
  }

  /** Only the required names decide the result: two headers that agree on
      which required names they contain give the same missing list, whatever
      extra columns or order they have. */
  lemma {:induction false} MissingColumnsOnlyRequiredMatter(required: seq<string>, columns: seq<string>, columns': seq<string>)
    requires forall c :: c in required ==> (c in columns <==> c in columns')
    ensures MissingColumns(required, columns) == MissingColumns(required, columns')
    decreases |required|
  {
    if |required| > 0 {
      assert forall c :: c in required[1..] ==> c in required;
      MissingColumnsOnlyRequiredMatter(required[1..], columns, columns');
    }
  }

  /** Appending columns that are not required never changes what is missing. */
  lemma ExtraColumnsIgnored(columns: seq<string>, extra: seq<string>)
    requires forall c :: c in extra ==> c !in RequiredColumns
    ensures Missing(columns + extra) == Missing(columns)
  {
    MissingColumnsOnlyRequiredMatter(RequiredColumns, columns + extra, columns);
  }

  /** No required name contains a comma, so the joined error text can be
      read back name by name. */
  lemma RequiredColumnsHaveNoComma()
    ensures forall c :: c in RequiredColumns ==> ',' !in c
  {
  }

  /** The error text is the fixed prefix followed by the missing names; the
      part after the prefix, split at ", ", gives back exactly the missing
      names in the order of the required list. */
  lemma MissingColumnsErrorLists(columns: seq<string>)
    requires Missing(columns) != []
    ensures MissingColumnsError(Missing(columns))[..|MissingPrefix|] == MissingPrefix
    ensures Text.Split(MissingColumnsError(Missing(columns))[|MissingPrefix|..], NameSeparator)
            == Missing(columns)
  {
    RequiredColumnsHaveNoComma();
  }

  /** Renaming `city_name` to `city` in an otherwise complete header is
      reported as exactly one missing column, `city_name`. */
  lemma RenamedCityColumnReported()
    ensures Missing(["timestamp", "city", "temperature", "humidity", "dew_point",
                     "wind_speed", "cloudiness", "uv_index", "rain_volume", "snow_volume"])
            == ["city_name"]
  {
    var columns := ["timestamp", "city", "temperature", "humidity", "dew_point",
                    "wind_speed", "cloudiness", "uv_index", "rain_volume", "snow_volume"];
    assert "city_name" !in columns by {
      forall i | 0 <= i < |columns| ensures columns[i] != "city_name" {
        assert |columns[i]| != 9 || columns[i][0] != 'c';
      }
    }
    var tail := RequiredColumns[2..];
    forall i | 0 <= i < |tail| ensures tail[i] in columns {
      assert tail[i] == columns[i + 2];
    }
    assert MissingColumns(tail, columns) == [];
    assert RequiredColumns[1..][1..] == tail;
    assert RequiredColumns[0] == columns[0];
  }
}
