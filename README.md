# Data-lake helper utilities: a Dafny model

This project models the string-level core of `shared_utils/datalake_utils.py`,
a set of helpers for notebooks that run in a hosted data-lake workspace. It covers four behaviours:

- **File discovery** (`get_lakehouse_files`). A folder listing of `(name, path)`
  entries is filtered down to the paths of `.csv` and `.xlsx` files. When a
  pattern is given, the name must also contain it. The result keeps listing
  order. This is modelled as a method with a loop (`GetLakehouseFiles`), proved
  against the specification function `SelectedPaths`.
- **Delta table address** (`get_delta_table_path`). This builds the `abfss://` OneLake URI of a
  table from the workspace, the default lakehouse, the schema and the table
  name (`GetDeltaTablePath`).
- **Runtime metadata** (`get_fabric_metadata`). The key is lower-cased first. Then
  `workspace`, `lakehouse`, `user` and `notebook` give the matching context
  value, and `header` and `footer` give formatted start and completion
  messages. Any other key gives `None` (`GetFabricMetadata`).
- **Read query** (`read_lakehouse_data`). This builds the SQL text sent to the analytic engine:
  a `read_csv` query for `"csv"`, a `read_xlsx` query with a literal filename
  column for `"xlsx"`, and `None` for any other format (`ReadLakehouseQuery`).

The hosted runtime context is the datatype `RuntimeContext`. The folder
listing is a `seq<FileInfo>`. The Asia/Kolkata clock reading is a string
parameter `istTime`. Python's `None` return is `Option.None`.
`PyStrings` models the Python string operations the code relies on:
`str.lower()`, `str.endswith()` and the substring test `p in s`.

Edge cases of the code that the model keeps:

- The extension test is case-sensitive, so `X.CSV` is not returned.
- An unrecognised metadata key or read format returns `None`. Nothing is
  raised.
- The table address is plain concatenation, so two different tables can share
  an address when a schema name and a table name both contain `'/'`. The
  address determines the table when no schema name contains `'/'`
  (`DeltaTablePathInjective`), and also when no table name does
  (`DeltaTablePathInjectiveByTableName`). `DeltaTablePathCollision` gives two
  tables that share one address.

Files: `wrappers.dfy` (the `Option` type), `py_strings.dfy` (Python string
operations), `datalake_utils.dfy` (the four behaviours and their properties).

## Model

| member | source | states |
|---|---|---|
| `DatalakeUtils.GetLakehouseFiles` | shared_utils/datalake_utils.py:74-81 | The loop that appends to `file_list` returns exactly `SelectedPaths` of the listing. Its invariant is that the list built so far holds the selected paths of the entries already visited. |
| `DatalakeUtils.SelectedPaths` | shared_utils/datalake_utils.py:76-81 | The selected paths are never more numerous than the listing's entries, so an empty listing gives an empty list. |
| `DatalakeUtils.SelectedPathsAppend` | shared_utils/datalake_utils.py:76-81 | Visiting one more listing entry appends its path to the result exactly when it passes both tests, and otherwise leaves the result unchanged. |
| `DatalakeUtils.SelectedPathsIsOrderedSelection` | shared_utils/datalake_utils.py:76-81 | Result position k is the path of a selected listing entry. The entry indices strictly increase, so the result is an order-preserving subsequence. Every selected entry appears. |
| `DatalakeUtils.SelectedPathsSound` | shared_utils/datalake_utils.py:77-80 | Every returned path comes from a listed entry whose name ends in `.csv` or `.xlsx` and, when a pattern is given, contains it as a substring. |
| `DatalakeUtils.SelectedPathsComplete` | shared_utils/datalake_utils.py:77-80 | Every listed `.csv`/`.xlsx` entry whose name contains the pattern is returned. Without a pattern, every such entry is returned. |
| `PyStrings.EndsWithAt` | shared_utils/datalake_utils.py:78 | `name.endswith(suffix)` holds iff the suffix is no longer than the name and the name's last characters equal the suffix's, one by one. |
| `DatalakeUtils.DataFileNameStem` | shared_utils/datalake_utils.py:78 | The tuple form `name.endswith((".csv", ".xlsx"))` holds iff the name is a stem followed by exactly `.csv` or exactly `.xlsx`. |
| `DatalakeUtils.DataFileExtensionsAreCaseSensitive` | shared_utils/datalake_utils.py:78 | Any stem with `.csv` or `.xlsx` appended passes the extension test. The same stem with `.CSV` or `.XLSX` appended fails it. |
| `DatalakeUtils.UpperCaseExtensionIgnored` | shared_utils/datalake_utils.py:78 | The suffix test is case-sensitive: an entry named `X.CSV` is dropped. |
| `PyStrings.Contains` | shared_utils/datalake_utils.py:79 | Python's `pattern in name` holds iff the pattern occurs at some index of the name. |
| `DatalakeUtils.TablesRoot` | shared_utils/datalake_utils.py:71 | The tables folder starts with `abfss://<workspace>@onelake.dfs.fabric.microsoft.com/` and ends with `.Lakehouse/Tables/`. |
| `DatalakeUtils.GetDeltaTablePath` | shared_utils/datalake_utils.py:68-72 | The table address starts with the lakehouse's tables folder and ends with `/<table name>`. |
| `DatalakeUtils.DeltaTablePathFromMetadata` | shared_utils/datalake_utils.py:69-71 | The address equals `abfss://` + ws + `@onelake.dfs.fabric.microsoft.com/` + lh + `.Lakehouse/Tables/` + schema + `/` + table. Here ws and lh are what the metadata lookup returns for `workspace` and `lakehouse`, whatever the time. |
| `DatalakeUtils.WorkspaceAndLakehouseKeys` | shared_utils/datalake_utils.py:55-58 | The lookups `workspace` and `lakehouse` return the context's workspace and default-lakehouse names unchanged. |
| `DatalakeUtils.DeltaTablePathInjective` | shared_utils/datalake_utils.py:71 | Two tables of one context with the same address have the same schema and table name, provided neither schema contains `'/'`. |
| `DatalakeUtils.DeltaTablePathInjectiveByTableName` | shared_utils/datalake_utils.py:71 | Two tables of one context with the same address have the same schema and table name, provided neither table name contains `'/'`. |
| `DatalakeUtils.DeltaTablePathCollision` | shared_utils/datalake_utils.py:71 | With a `'/'` in a schema name and another in a table name, injectivity fails: schema `a/b` with table `c` and schema `a` with table `b/c` get the same address. |
| `DatalakeUtils.GetFabricMetadata` | shared_utils/datalake_utils.py:48-66 | A result exists iff the lower-cased key is one of the six recognised keys. The four field keys return the context value unchanged. `header` embeds notebook, time and user. `footer` embeds notebook and time. |
| `DatalakeUtils.MetadataIgnoresCase` | shared_utils/datalake_utils.py:49 | Looking up `k` and looking up `k.lower()` give the same answer. |
| `DatalakeUtils.HeaderMessage` | shared_utils/datalake_utils.py:63-64 | The start message begins `Notebook - '` and contains the notebook name, the timestamp and the user name. |
| `DatalakeUtils.FooterMessage` | shared_utils/datalake_utils.py:65-66 | The completion message begins `Notebook - '`, contains the notebook name and ends with the timestamp. |
| `DatalakeUtils.HeaderDiffersFromFooter` | shared_utils/datalake_utils.py:63-66 | For one notebook and time, the `header` and `footer` answers differ, whatever the case of the keys. |
| `DatalakeUtils.HeaderIsNotFooter` | shared_utils/datalake_utils.py:64-66 | A start message is never equal to the completion message of the same notebook and time. |
| `DatalakeUtils.ReadLakehouseQuery` | shared_utils/datalake_utils.py:42-45 | A query exists iff the format is exactly `csv` or `xlsx`, so `CSV` gets none. The csv query starts with the select list `select *,current_timestamp as LOAD_TS,current_timestamp as UPDATE_TS from ` and ends with `read_csv('<path>',filename=True)`. The xlsx query starts with `select *,'<path>' as filename,` followed by the same two timestamp columns and ` from `. It ends with `read_xlsx('<path>',all_varchar=True)`. So every query keeps all the file's columns and adds LOAD_TS and UPDATE_TS. |
| `DatalakeUtils.ReadQueryDeterminesRequest` | shared_utils/datalake_utils.py:42-45 | Two requests that produce the same query have the same format and the same path. |
| `DatalakeUtils.CsvQueryInjective` | shared_utils/datalake_utils.py:43 | Distinct paths give distinct csv queries. |
| `DatalakeUtils.XlsxQueryInjective` | shared_utils/datalake_utils.py:45 | Distinct paths give distinct xlsx queries. |
| `DatalakeUtils.CsvQueryIsNotXlsxQuery` | shared_utils/datalake_utils.py:42-45 | A csv query never equals an xlsx query, whatever the two paths. |
| `PyStrings.Lower` | shared_utils/datalake_utils.py:49 | Lower-casing keeps the length of the key. This holds for the ASCII-only lowering modelled here, not for Python's full Unicode `lower()`. |
| `PyStrings.LowerAt` | shared_utils/datalake_utils.py:49 | Each character of the lower-cased key is the lowered original character. No ASCII upper-case letter remains. |
| `PyStrings.LowerIdempotent` | shared_utils/datalake_utils.py:49 | Lower-casing twice is the same as lower-casing once. |

## Left out

- `PyStrings.Lower`: maps only the ASCII letters `A`-`Z`. Python's `str.lower()` also maps other Unicode letters and can lengthen a string (`"İ".lower()` has two code points), so the length bound holds of the model only.
- `DatalakeUtils.GetFabricMetadata`: because of the ASCII-only lowering, a key that reaches a recognised key only through non-ASCII case mapping is not recognised. For example `"wor\u212Aspace"` (with the Kelvin sign) lowers to `"workspace"` in Python and returns the workspace name there, but the model returns `None`.
- `get_time` (shared_utils/datalake_utils.py:8-11): reads the wall clock and converts it to the Asia/Kolkata zone. The formatted time is the parameter `istTime`.
- `generate_random_uuid` (shared_utils/datalake_utils.py:13-17): draws randomness from the `uuid` library.
- `get_duckdb_conn` and the execution of the read queries by DuckDB (shared_utils/datalake_utils.py:19-28, 43, 45): a foreign analytic engine. Only the query text is modelled.
- `notebookutils.runtime.context` and `notebookutils.fs.ls` (shared_utils/datalake_utils.py:50-53, 75): hosted-platform state and I/O. They become the `RuntimeContext` record and the listing parameter of `GetLakehouseFiles`. The `folder_path` argument and its default `/lakehouse/default/Files/` only choose what is listed, so they do not appear. A context that lacks a key raises in Python. The record always has every field.
- The `deltalake` and `loguru` imports (shared_utils/datalake_utils.py:2, 5): unused by the functions shown.
- Nothing else in `shared_utils/datalake_utils.py` is left out.
- setup.py: packaging metadata with no logic.
