/** The string-level behaviour of the shared data-lake helpers: which files a
    lakehouse folder listing yields, how a table's OneLake address is built,
    what the runtime-metadata lookup answers, and which query text is sent to
    the analytic engine to read a file.

    The hosted runtime's context record and folder listing, the wall clock and
    the analytic engine are inputs of these functions, not part of the model. */
module DatalakeUtils {
  import opened Wrappers
  import opened PyStrings

  /** The values the hosted runtime context supplies for the current run. */
  datatype RuntimeContext = RuntimeContext(
    currentWorkspaceName: string,
    defaultLakehouseName: string,
    userName: string,
    currentNotebookName: string)

  /** One entry of a folder listing: the file's name and its full path. */
  datatype FileInfo = FileInfo(name: string, path: string)

  // ---------------------------------------------------------------------
  // Query text for reading a lakehouse file

  /** The two audit-timestamp columns every read query adds. */
  const LoadTsColumn := "current_timestamp as LOAD_TS"
  const UpdateTsColumn := "current_timestamp as UPDATE_TS"

  /** The query sent to the analytic engine to read `filePath` in the given
      format; `None` for any format other than exactly "csv" or "xlsx".
      Both queries add the LOAD_TS and UPDATE_TS columns; the path is spliced
      in verbatim, without escaping. */
  function ReadLakehouseQuery(dataFormat: string, filePath: string): (query: Option<string>)
    ensures query.Some? <==> dataFormat == "csv" || dataFormat == "xlsx"
    ensures query.Some? ==> Contains(query.value, LoadTsColumn) && Contains(query.value, UpdateTsColumn)
    ensures dataFormat == "csv" ==>
      StartsWith(query.value, "select *," + LoadTsColumn + "," + UpdateTsColumn + " from ") &&
      EndsWith(query.value, "read_csv('" + filePath + "',filename=True)")
    ensures dataFormat == "xlsx" ==>
      StartsWith(query.value, "select *," + ("'" + filePath + "' as filename") + "," + LoadTsColumn + "," + UpdateTsColumn + " from ") &&
      Contains(query.value, "'" + filePath + "' as filename") &&
      EndsWith(query.value, "read_xlsx('" + filePath + "',all_varchar=True)")
  {
    if dataFormat == "csv" then
      var source := "read_csv('" + filePath + "',filename=True)";
      var q := "select *," + LoadTsColumn + "," + UpdateTsColumn + " from " + source;
      CsvQueryShape("select *,", LoadTsColumn, ",", UpdateTsColumn, " from ", source);
      Some(q)
    else if dataFormat == "xlsx" then
      var fileColumn := "'" + filePath + "' as filename";
      var source := "read_xlsx('" + filePath + "',all_varchar=True)";
      var q := "select *," + fileColumn + "," + LoadTsColumn + "," + UpdateTsColumn + " from " + source;
      XlsxQueryShape("select *,", fileColumn, ",", LoadTsColumn, ",", UpdateTsColumn, " from ", source);
      Some(q)
    else
      None
  }

  /** The pieces of a csv read query: the select list starts it, both
      timestamp columns occur in it and the `read_csv` call ends it. */
  lemma CsvQueryShape(a: string, b: string, c: string, d: string, e: string, f: string)
    ensures StartsWith(a + b + c + d + e + f, a + b + c + d + e)
    ensures Contains(a + b + c + d + e + f, b)
    ensures Contains(a + b + c + d + e + f, d)
    ensures EndsWith(a + b + c + d + e + f, f)
  {
    OccursInConcat(a, b, c + d + e + f);
    assert a + b + c + d + e + f == a + b + (c + d + e + f);
    OccursInConcat(a + b + c, d, e + f);
    assert a + b + c + d + e + f == a + b + c + d + (e + f);
    EndsWithConcat(a + b + c + d + e, f);
    PrefixOfConcat(a + b + c + d + e, f);
  }

  /** The pieces of an xlsx read query: the select list starts it, the
      filename column and both timestamp columns occur in it and the
      `read_xlsx` call ends it. */
  lemma XlsxQueryShape(a: string, b: string, c: string, d: string, e: string, f: string, g: string, h: string)
    ensures StartsWith(a + b + c + d + e + f + g + h, a + b + c + d + e + f + g)
    ensures Contains(a + b + c + d + e + f + g + h, b)
    ensures Contains(a + b + c + d + e + f + g + h, d)
    ensures Contains(a + b + c + d + e + f + g + h, f)
    ensures EndsWith(a + b + c + d + e + f + g + h, h)
  {
    MessageShape(a, b, c, d, e, f, g + h);
    assert a + b + c + d + e + f + (g + h) == a + b + c + d + e + f + g + h;
    EndsWithConcat(a + b + c + d + e + f + g, h);
    PrefixOfConcat(a + b + c + d + e + f + g, h);
  }

  /** A read query determines both the format and the file it reads: no two
      different (format, path) requests produce the same query text. */
  lemma ReadQueryDeterminesRequest(format1: string, path1: string, format2: string, path2: string)
    requires ReadLakehouseQuery(format1, path1).Some?
    requires ReadLakehouseQuery(format1, path1) == ReadLakehouseQuery(format2, path2)
    ensures format1 == format2 && path1 == path2
  {
    if format1 == "csv" && format2 == "csv" {
      CsvQueryInjective(path1, path2);
    } else if format1 == "xlsx" && format2 == "xlsx" {
      XlsxQueryInjective(path1, path2);
    } else if format1 == "csv" {
      CsvQueryIsNotXlsxQuery(path1, path2);
    } else {
      CsvQueryIsNotXlsxQuery(path2, path1);
    }
  }

  lemma CsvQueryInjective(path1: string, path2: string)
    requires ReadLakehouseQuery("csv", path1) == ReadLakehouseQuery("csv", path2)
    ensures path1 == path2
  {
    var head := "select *," + LoadTsColumn + "," + UpdateTsColumn + " from ";
    var q1 := head + ("read_csv('" + path1 + "',filename=True)");
    var q2 := head + ("read_csv('" + path2 + "',filename=True)");
    assert q1 == q2;
    assert "read_csv('" + path1 + "',filename=True)" == q1[|head|..];
    MiddleCancels("read_csv('", path1, path2, "',filename=True)");
  }

  lemma XlsxQueryInjective(path1: string, path2: string)
    requires ReadLakehouseQuery("xlsx", path1) == ReadLakehouseQuery("xlsx", path2)
    ensures path1 == path2
  {
    var source1 := "read_xlsx('" + path1 + "',all_varchar=True)";
    var source2 := "read_xlsx('" + path2 + "',all_varchar=True)";
    var q1 := "select *," + ("'" + path1 + "' as filename") + "," + LoadTsColumn + "," + UpdateTsColumn + " from " + source1;
    var q2 := "select *," + ("'" + path2 + "' as filename") + "," + LoadTsColumn + "," + UpdateTsColumn + " from " + source2;
    assert q1 == q2;
    assert |path1| == |path2|;
    MiddleOfQueryCancels("select *,", "'", path1, path2, "' as filename", ",", LoadTsColumn, ",", UpdateTsColumn, " from ", source1, source2);
  }

  /** Two xlsx-shaped texts that agree and whose paths have the same length
      have the same path. */
  lemma MiddleOfQueryCancels(a: string, b: string, x: string, y: string, c: string, d: string, e: string, f: string, g: string, h: string, s: string, t: string)
    requires |x| == |y|
    requires a + (b + x + c) + d + e + f + g + h + s == a + (b + y + c) + d + e + f + g + h + t
    ensures x == y
  {
    var q1 := a + (b + x + c) + d + e + f + g + h + s;
    var q2 := a + (b + y + c) + d + e + f + g + h + t;
    assert q1 == a + b + x + (c + d + e + f + g + h + s);
    assert q2 == a + b + y + (c + d + e + f + g + h + t);
    assert x == q1[|a + b|..|a + b| + |x|];
    assert y == q2[|a + b|..|a + b| + |y|];
  }

  lemma CsvQueryIsNotXlsxQuery(path1: string, path2: string)
    ensures ReadLakehouseQuery("csv", path1) != ReadLakehouseQuery("xlsx", path2)
  {
    var csvHead := "select *," + LoadTsColumn + "," + UpdateTsColumn + " from ";
    var xlsxHead := "select *," + ("'" + path2 + "' as filename") + "," + LoadTsColumn + "," + UpdateTsColumn + " from ";
    assert csvHead[9] == 'c';
    assert xlsxHead[9] == '\'';
    DifferAt(csvHead, "read_csv('" + path1 + "',filename=True)",
             xlsxHead, "read_xlsx('" + path2 + "',all_varchar=True)", 9);
  }

  // ---------------------------------------------------------------------
  // Runtime metadata

  /** The keys the metadata lookup recognises, after lower-casing. */
  const MetadataKeys: set<string> := {"workspace", "lakehouse", "user", "notebook", "header", "footer"}

  /** The message announcing that a notebook started, with its start time and
      the user running it. */
  function HeaderMessage(notebook: string, istTime: string, user: string): (m: string)
    ensures StartsWith(m, "Notebook - '")
    ensures Contains(m, notebook) && Contains(m, istTime) && Contains(m, user)
  {
    var m := "Notebook - '" + notebook + "' execution started at " + istTime + " by user - '" + user + "'";
    MessageShape("Notebook - '", notebook, "' execution started at ", istTime, " by user - '", user, "'");
    m
  }

  /** The message announcing that a notebook completed, with its end time. */
  function FooterMessage(notebook: string, istTime: string): (m: string)
    ensures StartsWith(m, "Notebook - '")
    ensures Contains(m, notebook) && EndsWith(m, istTime)
  {
    var m := "Notebook - '" + notebook + "' execution completed at " + istTime;
    OccursInConcat("Notebook - '", notebook, "' execution completed at " + istTime);
    assert m == "Notebook - '" + notebook + ("' execution completed at " + istTime);
    EndsWithConcat("Notebook - '" + notebook + "' execution completed at ", istTime);
    m
  }

  /** The pieces of a header message: the second, fourth and sixth occur in it. */
  lemma MessageShape(a: string, b: string, c: string, d: string, e: string, f: string, g: string)
    ensures StartsWith(a + b + c + d + e + f + g, a)
    ensures Contains(a + b + c + d + e + f + g, b)
    ensures Contains(a + b + c + d + e + f + g, d)
    ensures Contains(a + b + c + d + e + f + g, f)
  {
    var m := a + b + c + d + e + f + g;
    assert m == a + (b + c + d + e + f + g);
    PrefixOfConcat(a, b + c + d + e + f + g);
    assert m == a + b + (c + d + e + f + g);
    OccursInConcat(a, b, c + d + e + f + g);
    assert m == a + b + c + d + (e + f + g);
    OccursInConcat(a + b + c, d, e + f + g);
    OccursInConcat(a + b + c + d + e, f, g);
  }

  /** The answer to a metadata request for `property`, looked up case-insensitively;
      `istTime` is the current time in the Asia/Kolkata zone. Workspace,
      lakehouse, user and notebook return the context's value unchanged;
      header and footer return a message; any other key returns `None`. */
  function GetFabricMetadata(ctx: RuntimeContext, istTime: string, property: string): (r: Option<string>)
    ensures r.Some? <==> Lower(property) in MetadataKeys
    ensures Lower(property) == "workspace" ==> r == Some(ctx.currentWorkspaceName)
    ensures Lower(property) == "lakehouse" ==> r == Some(ctx.defaultLakehouseName)
    ensures Lower(property) == "user" ==> r == Some(ctx.userName)
    ensures Lower(property) == "notebook" ==> r == Some(ctx.currentNotebookName)
    ensures Lower(property) == "header" ==>
      r.Some? && Contains(r.value, ctx.currentNotebookName) && Contains(r.value, istTime) && Contains(r.value, ctx.userName)
    ensures Lower(property) == "footer" ==>
      r.Some? && Contains(r.value, ctx.currentNotebookName) && Contains(r.value, istTime)
  {
    var stdProperty := Lower(property);
    if stdProperty == "workspace" then Some(ctx.currentWorkspaceName)
    else if stdProperty == "lakehouse" then Some(ctx.defaultLakehouseName)
    else if stdProperty == "user" then Some(ctx.userName)
    else if stdProperty == "notebook" then Some(ctx.currentNotebookName)
    else if stdProperty == "header" then Some(HeaderMessage(ctx.currentNotebookName, istTime, ctx.userName))
    else if stdProperty == "footer" then
      var m := FooterMessage(ctx.currentNotebookName, istTime);
      assert m[|m| - |istTime|..] == istTime;
      assert OccursAt(m, istTime, |m| - |istTime|);
      Some(m)
    else
      assert stdProperty !in MetadataKeys;
      None
  }

  /** The lookup ignores the case of its key: `k` and `k.lower()` give the same answer. */
  lemma {:induction false} MetadataIgnoresCase(ctx: RuntimeContext, istTime: string, property: string)
    ensures GetFabricMetadata(ctx, istTime, property) == GetFabricMetadata(ctx, istTime, Lower(property))
  {
    LowerIdempotent(property);
  }

  /** A header and a footer of the same notebook at the same time never
      coincide, however the two keys are capitalised. */
  lemma HeaderDiffersFromFooter(ctx: RuntimeContext, istTime: string, headerKey: string, footerKey: string)
    requires Lower(headerKey) == "header" && Lower(footerKey) == "footer"
    ensures GetFabricMetadata(ctx, istTime, headerKey) != GetFabricMetadata(ctx, istTime, footerKey)
  {
    var nb := ctx.currentNotebookName;
    HeaderIsNotFooter(nb, istTime, ctx.userName);
  }

  lemma HeaderIsNotFooter(notebook: string, istTime: string, user: string)
    ensures HeaderMessage(notebook, istTime, user) != FooterMessage(notebook, istTime)
  {
    var lead := "Notebook - '" + notebook;
    var started := "' execution started at ";
    var completed := "' execution completed at ";
    assert started[12] == 's' && completed[12] == 'c';
    var header := lead + started + istTime + " by user - '" + user + "'";
    assert header == lead + started + (istTime + " by user - '" + user + "'");
    assert (lead + started)[|lead| + 12] == 's';
    assert (lead + completed)[|lead| + 12] == 'c';
    DifferAt(lead + started, istTime + " by user - '" + user + "'", lead + completed, istTime, |lead| + 12);
  }

  // ---------------------------------------------------------------------
  // Delta table address

  /** The OneLake folder that holds the current lakehouse's tables. */
  function TablesRoot(ctx: RuntimeContext): (root: string)
    ensures StartsWith(root, "abfss://" + ctx.currentWorkspaceName + "@onelake.dfs.fabric.microsoft.com/")
    ensures EndsWith(root, ".Lakehouse/Tables/")
  {
    var host := "abfss://" + ctx.currentWorkspaceName + "@onelake.dfs.fabric.microsoft.com/";
    var root := host + ctx.defaultLakehouseName + ".Lakehouse/Tables/";
    assert root == host + (ctx.defaultLakehouseName + ".Lakehouse/Tables/");
    assert root[..|host|] == host;
    EndsWithConcat(host + ctx.defaultLakehouseName, ".Lakehouse/Tables/");
    root
  }

  /** The `abfss://` address of table `tableName` in schema `schema` of the
      current workspace's default lakehouse. Nothing in it is escaped. */
  function GetDeltaTablePath(ctx: RuntimeContext, schema: string, tableName: string): (path: string)
    ensures StartsWith(path, TablesRoot(ctx))
    ensures EndsWith(path, "/" + tableName)
  {
    var path := TablesRoot(ctx) + schema + "/" + tableName;
    assert path[..|TablesRoot(ctx)|] == TablesRoot(ctx);
    assert path == TablesRoot(ctx) + schema + ("/" + tableName);
    EndsWithConcat(TablesRoot(ctx) + schema, "/" + tableName);
    path
  }

  /** The address is built from what the metadata lookup reports for the
      workspace and the lakehouse, at whatever time it is asked. */
  lemma DeltaTablePathFromMetadata(ctx: RuntimeContext, istTime: string, schema: string, tableName: string)
    ensures GetFabricMetadata(ctx, istTime, "workspace").Some?
    ensures GetFabricMetadata(ctx, istTime, "lakehouse").Some?
    ensures GetDeltaTablePath(ctx, schema, tableName) ==
      "abfss://" + GetFabricMetadata(ctx, istTime, "workspace").value + "@onelake.dfs.fabric.microsoft.com/"
      + GetFabricMetadata(ctx, istTime, "lakehouse").value + ".Lakehouse/Tables/" + schema + "/" + tableName
  {
    WorkspaceAndLakehouseKeys(ctx, istTime);
  }

  lemma WorkspaceAndLakehouseKeys(ctx: RuntimeContext, istTime: string)
    ensures GetFabricMetadata(ctx, istTime, "workspace") == Some(ctx.currentWorkspaceName)
    ensures GetFabricMetadata(ctx, istTime, "lakehouse") == Some(ctx.defaultLakehouseName)
  {
    WorkspaceKeyIsLowerCase();
    LakehouseKeyIsLowerCase();
  }

  lemma WorkspaceKeyIsLowerCase()
    ensures Lower("workspace") == "workspace"
  {
    LowerUnchanged("workspace");
  }

  lemma LakehouseKeyIsLowerCase()
    ensures Lower("lakehouse") == "lakehouse"
  {
    LowerUnchanged("lakehouse");
  }

  /** An address is the tables root followed by `schema/tableName`. */
  lemma DeltaTablePathParts(ctx: RuntimeContext, schema: string, tableName: string)
    ensures GetDeltaTablePath(ctx, schema, tableName) == TablesRoot(ctx) + (schema + "/" + tableName)
  {
  }

  /** Equally, distinct tables get distinct addresses as long as table names
      hold no `'/'`. */
  lemma DeltaTablePathInjectiveByTableName(ctx: RuntimeContext, schema1: string, tableName1: string, schema2: string, tableName2: string)
    requires '/' !in tableName1 && '/' !in tableName2
    requires GetDeltaTablePath(ctx, schema1, tableName1) == GetDeltaTablePath(ctx, schema2, tableName2)
    ensures schema1 == schema2 && tableName1 == tableName2
  {
    DeltaTablePathParts(ctx, schema1, tableName1);
    DeltaTablePathParts(ctx, schema2, tableName2);
    PrefixCancels(TablesRoot(ctx), schema1 + "/" + tableName1, schema2 + "/" + tableName2);
    SplitAtLastSlash(schema1, tableName1);
    SplitAtLastSlash(schema2, tableName2);
  }

  /** Distinct tables get distinct addresses as long as schema names hold no
      `'/'`: the schema and the table name can be read back from the address. */
  lemma DeltaTablePathInjective(ctx: RuntimeContext, schema1: string, tableName1: string, schema2: string, tableName2: string)
    requires '/' !in schema1 && '/' !in schema2
    requires GetDeltaTablePath(ctx, schema1, tableName1) == GetDeltaTablePath(ctx, schema2, tableName2)
    ensures schema1 == schema2 && tableName1 == tableName2
  {
    DeltaTablePathParts(ctx, schema1, tableName1);
    DeltaTablePathParts(ctx, schema2, tableName2);
    PrefixCancels(TablesRoot(ctx), schema1 + "/" + tableName1, schema2 + "/" + tableName2);
    SplitAtFirstSlash(schema1, tableName1);
    SplitAtFirstSlash(schema2, tableName2);
  }

  /** With a `'/'` in a schema and another in a table name, two different
      tables can share an address: schema "a/b" with table "c" and schema "a"
      with table "b/c". */
  lemma DeltaTablePathCollision(ctx: RuntimeContext)
    ensures GetDeltaTablePath(ctx, "a/b", "c") == GetDeltaTablePath(ctx, "a", "b/c")
  {
    assert "a/b" + "/" + "c" == "a" + "/" + "b/c";
    assert TablesRoot(ctx) + "a/b" + "/" + "c" == TablesRoot(ctx) + ("a/b" + "/" + "c");
    assert TablesRoot(ctx) + "a" + "/" + "b/c" == TablesRoot(ctx) + ("a" + "/" + "b/c");
  }

  // ---------------------------------------------------------------------
  // Lakehouse file discovery

  /** `name.endswith((".csv", ".xlsx"))`: the name is some stem followed by
      either extension, spelled exactly so. */
  predicate IsDataFileName(name: string) {
    EndsWith(name, ".csv") || EndsWith(name, ".xlsx")
  }

  /** A data file name is its own stem followed by `.csv` or `.xlsx`, and
      every such name is a data file name. */
  lemma DataFileNameStem(name: string)
    ensures IsDataFileName(name) <==>
      (|name| >= 4 && name == name[..|name| - 4] + ".csv") ||
      (|name| >= 5 && name == name[..|name| - 5] + ".xlsx")
  {
    EndsWithStem(name, ".csv");
    EndsWithStem(name, ".xlsx");
  }

  /** Any stem with a lower-case `.csv` or `.xlsx` extension is a data file
      name; the same stem with an upper-case `.CSV` or `.XLSX` is not. */
  lemma DataFileExtensionsAreCaseSensitive(stem: string)
    ensures IsDataFileName(stem + ".csv") && IsDataFileName(stem + ".xlsx")
    ensures !IsDataFileName(stem + ".CSV") && !IsDataFileName(stem + ".XLSX")
  {
    EndsWithConcat(stem, ".csv");
    EndsWithConcat(stem, ".xlsx");
    assert (stem + ".CSV")[|stem| + 1] == 'C';
    assert (stem + ".XLSX")[|stem| + 1] == 'X';
  }

  /** The listing entry is kept: a data file whose name contains the pattern, if one is given. */
  predicate Selected(fileInfo: FileInfo, pattern: Option<string>) {
    IsDataFileName(fileInfo.name) && (pattern.None? || Contains(fileInfo.name, pattern.value))
  }

  /** The paths of the selected entries of a listing, in listing order. */
  function SelectedPaths(files: seq<FileInfo>, pattern: Option<string>): (paths: seq<string>)
    ensures |paths| <= |files|
  {
    if files == [] then []
    else
      var earlier := SelectedPaths(files[..|files| - 1], pattern);
      var last := files[|files| - 1];
      if Selected(last, pattern) then earlier + [last.path] else earlier
  }

  /** Listing one more entry adds its path at the end exactly when it is selected. */
  lemma SelectedPathsAppend(files: seq<FileInfo>, fileInfo: FileInfo, pattern: Option<string>)
    ensures SelectedPaths(files + [fileInfo], pattern) ==
      if Selected(fileInfo, pattern) then SelectedPaths(files, pattern) + [fileInfo.path] else SelectedPaths(files, pattern)
  {
    assert (files + [fileInfo])[..|files|] == files;
  }

  /** The paths of the csv and xlsx files in `files` (a folder listing) whose
      names contain `pattern` when one is given, in listing order. */
  method GetLakehouseFiles(files: seq<FileInfo>, pattern: Option<string>) returns (fileList: seq<string>)
    ensures fileList == SelectedPaths(files, pattern)
  {
    fileList := [];
    for i := 0 to |files|
      invariant fileList == SelectedPaths(files[..i], pattern)
    {
      var fileInfo := files[i];
      assert files[..i + 1] == files[..i] + [fileInfo];
      SelectedPathsAppend(files[..i], fileInfo, pattern);
      if EndsWith(fileInfo.name, ".csv") || EndsWith(fileInfo.name, ".xlsx") {
        if pattern.None? || Contains(fileInfo.name, pattern.value) {
          fileList := fileList + [fileInfo.path];
        }
      }
    }
    assert files[..|files|] == files;
  }

  /** The positions in `files` of the selected entries, in listing order. */
  ghost function SelectedIndices(files: seq<FileInfo>, pattern: Option<string>): (index: seq<nat>)
    ensures |index| == |SelectedPaths(files, pattern)|
    ensures forall k :: 0 <= k < |index| ==> index[k] < |files|
  {
    if files == [] then []
    else
      var earlier := SelectedIndices(files[..|files| - 1], pattern);
      if Selected(files[|files| - 1], pattern) then earlier + [|files| - 1] else earlier
  }

  /** Each recorded position holds a selected entry whose path is the
      corresponding result path. */
  lemma {:induction false} SelectedIndicesPick(files: seq<FileInfo>, pattern: Option<string>)
    ensures forall k :: 0 <= k < |SelectedIndices(files, pattern)| ==>
      Selected(files[SelectedIndices(files, pattern)[k]], pattern) &&
      files[SelectedIndices(files, pattern)[k]].path == SelectedPaths(files, pattern)[k]
  {
    if files != [] {
      var n := |files| - 1;
      var prefix := files[..n];
      SelectedIndicesPick(prefix, pattern);
      var index := SelectedIndices(files, pattern);
      var earlier := SelectedIndices(prefix, pattern);
      var result := SelectedPaths(files, pattern);
      var before := SelectedPaths(prefix, pattern);
      forall k | 0 <= k < |index|
        ensures Selected(files[index[k]], pattern) && files[index[k]].path == result[k]
      {
        if k < |earlier| {
          assert index[k] == earlier[k] && result[k] == before[k];
          assert prefix[earlier[k]] == files[earlier[k]];
        } else {
          assert index[k] == n && result[k] == files[n].path;
        }
      }
    }
  }

  /** The recorded positions strictly increase. */
  lemma {:induction false} SelectedIndicesIncreasing(files: seq<FileInfo>, pattern: Option<string>)
    ensures forall k, l :: 0 <= k < l < |SelectedIndices(files, pattern)| ==>
      SelectedIndices(files, pattern)[k] < SelectedIndices(files, pattern)[l]
  {
    if files != [] {
      var n := |files| - 1;
      var prefix := files[..n];
      SelectedIndicesIncreasing(prefix, pattern);
      var index := SelectedIndices(files, pattern);
      var earlier := SelectedIndices(prefix, pattern);
      forall k, l | 0 <= k < l < |index|
        ensures index[k] < index[l]
      {
        assert index[k] == earlier[k];
        if l < |earlier| {
          assert index[l] == earlier[l];
        } else {
          assert index[l] == n;
        }
      }
    }
  }

  /** Every selected entry's position is recorded. */
  lemma {:induction false} SelectedIndicesComplete(files: seq<FileInfo>, pattern: Option<string>)
    ensures forall i :: 0 <= i < |files| && Selected(files[i], pattern) ==> i in SelectedIndices(files, pattern)
  {
    if files != [] {
      var n := |files| - 1;
      var prefix := files[..n];
      SelectedIndicesComplete(prefix, pattern);
      var index := SelectedIndices(files, pattern);
      var earlier := SelectedIndices(prefix, pattern);
      forall i | 0 <= i < |files| && Selected(files[i], pattern)
        ensures i in index
      {
        if i < n {
          assert prefix[i] == files[i];
          assert i in earlier;
        }
      }
    }
  }

  /** The result is exactly the selected entries' paths in listing order: each
      result position comes from a distinct, strictly later selected entry,
      and every selected entry contributes. */
  lemma SelectedPathsIsOrderedSelection(files: seq<FileInfo>, pattern: Option<string>)
    returns (index: seq<nat>)
    ensures |index| == |SelectedPaths(files, pattern)|
    ensures forall k :: 0 <= k < |index| ==>
      index[k] < |files| && Selected(files[index[k]], pattern) && files[index[k]].path == SelectedPaths(files, pattern)[k]
    ensures forall k, l :: 0 <= k < l < |index| ==> index[k] < index[l]
    ensures forall i :: 0 <= i < |files| && Selected(files[i], pattern) ==> i in index
  {
    index := SelectedIndices(files, pattern);
    SelectedIndicesPick(files, pattern);
    SelectedIndicesIncreasing(files, pattern);
    SelectedIndicesComplete(files, pattern);
  }

  /** Every returned path belongs to a listed csv or xlsx file whose name
      contains the pattern, if one is given. */
  lemma SelectedPathsSound(files: seq<FileInfo>, pattern: Option<string>, path: string)
    requires path in SelectedPaths(files, pattern)
    ensures exists i :: (0 <= i < |files| && files[i].path == path &&
      (EndsWith(files[i].name, ".csv") || EndsWith(files[i].name, ".xlsx")) &&
      (pattern.Some? ==> exists j :: OccursAt(files[i].name, pattern.value, j)))
  {
    var index := SelectedPathsIsOrderedSelection(files, pattern);
    var k :| 0 <= k < |SelectedPaths(files, pattern)| && SelectedPaths(files, pattern)[k] == path;
    assert Selected(files[index[k]], pattern);
  }

  /** Every listed csv or xlsx file whose name contains the pattern (or every
      one, without a pattern) is returned. */
  lemma SelectedPathsComplete(files: seq<FileInfo>, pattern: Option<string>, i: int)
    requires 0 <= i < |files|
    requires EndsWith(files[i].name, ".csv") || EndsWith(files[i].name, ".xlsx")
    requires pattern.Some? ==> exists j :: OccursAt(files[i].name, pattern.value, j)
    ensures files[i].path in SelectedPaths(files, pattern)
  {
    var index := SelectedPathsIsOrderedSelection(files, pattern);
    assert Selected(files[i], pattern);
    var k :| 0 <= k < |index| && index[k] == i;
  }

  /** The extension test is case-sensitive: an upper-case `.CSV` file is not returned. */
  lemma UpperCaseExtensionIgnored(path: string)
    ensures SelectedPaths([FileInfo("X.CSV", path)], None) == []
  {
    assert "X.CSV"[1..] != ".csv";
  }
}
