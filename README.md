# IllustrisTNG data fetcher: verified model of its request and batch-file logic

The IllustrisTNG data fetcher is a small client for the IllustrisTNG simulation
catalogue. It lists simulations, and it downloads "cutouts" (particle-data
subsets of one halo or subhalo in one snapshot) through a form or a command
line. Most of it is HTTP and UI glue. This project models the deterministic
logic inside that glue and proves what it does:

- **Batch parameter-file reader** (`read_params_from_file`), module `ParamFile`
  in `param_file.dfy`. It is a line-by-line loop. Each line is stripped. Blank
  lines are skipped. A `---` line closes the current parameter set, even an
  empty one. Any other line must split on `:` into exactly two parts, which
  become a stripped key/value entry; otherwise the line is skipped. At the end,
  the open set is kept only if it is non-empty. `ReadParams` is that loop,
  proved equal to the specification function `Parse`. `Parse` is in turn proved
  equal to a block-by-block reading: cut the file at `---` lines, then give each
  key the value of its last entry line in the block (`ParseBySegments`).
- **The batch driver's api_key step**, module `Batch` in `batch.dfy`. It reads
  the first set's `api_key` with `dict.get`, so the value may be Python `None`.
  It then writes that value into every set in place. Because a set may hold
  `None` afterwards, sets are maps to `Option<string>` there. `PropagateApiKey`
  works on an array, one slot per set.
- **Cutout request construction** (`download_cutout`), module `Cutout` in
  `cutout.dfy`. It covers the fixed six-entry table from particle-type label to
  field list, and the filter that keeps the entries whose label is in
  `datatypes` (exact string equality, table order). It adds `size` when the
  cube size is truthy, builds the endpoint path and the output file name, and
  includes the form helper that appends the `Mpc` unit. Query parameters are an
  ordered list of pairs, as a Python dict keeps insertion order; `Lookup` gives
  the dict view.
- Python's `str.strip()` (with the `str.isspace` character set) and
  `str.split(sep)` are written out in module `PyStr` (`pystr.dfy`). `Option`
  is in `optional.dfy`.

The source's form offers labels such as `PartType0 (Gas)`, and its command-line
help suggests `PartType0`. Neither ever equals a table label (`Gas`, ...). The
model keeps the exact-membership filter as written, and
`DisplayLabelsSelectNothing` proves the consequence: a selection made from the
form's labels requests no field list at all.

Two behaviours of the code are easy to misread:

- It overwrites `api_key` in every set, including sets that carried their own
  key (IllustrisTNGDataFetcher.py:217-219).
- `download_cutout` sends `cube_size` verbatim (IllustrisTNGDataFetcher.py:57-58);
  only the form appends `Mpc` (IllustrisTNGDataFetcher.py:132-134).

## Model

| member | source | states |
|---|---|---|
| `PyStr.Strip` | IllustrisTNGDataFetcher.py:171 | the stripped line has no whitespace at either end, and it is empty exactly when the line is all whitespace |
| `PyStr.StripIsSlice` | IllustrisTNGDataFetcher.py:171 | stripping removes only whitespace, and only from the two ends of one contiguous slice |
| `PyStr.StripPadded` | IllustrisTNGDataFetcher.py:171 | whitespace around an already-trimmed text is exactly what stripping removes |
| `PyStr.StripIdempotent` | IllustrisTNGDataFetcher.py:171 | stripping twice is the same as stripping once |
| `PyStr.Split` | IllustrisTNGDataFetcher.py:180 | splitting on `:` gives one more part than there are colons, no part contains `:`, and joining the parts with `:` gives the line back |
| `PyStr.SplitOnce` | IllustrisTNGDataFetcher.py:180-181 | a text with exactly one colon splits into exactly the text before it and the text after it |
| `ParamFile.ClassifyKinds` | IllustrisTNGDataFetcher.py:171-183 | a line is blank exactly when it is all whitespace; it is a separator exactly when it strips to `---`; it is skipped as malformed exactly when its stripped text is neither of those and does not hold exactly one colon |
| `ParamFile.ClassifyEntry` | IllustrisTNGDataFetcher.py:180-186 | a line that strips to `k:v` around its only colon is the entry `strip(k) -> strip(v)` |
| `ParamFile.ClassifyEntryShape` | IllustrisTNGDataFetcher.py:180-186 | conversely, every accepted line strips to `k:v` with one colon, and its entry is `strip(k) -> strip(v)` |
| `ParamFile.ClassifyStripped` | IllustrisTNGDataFetcher.py:171 | a line and its stripped form are classified the same |
| `ParamFile.ReadParams` | IllustrisTNGDataFetcher.py:164-189 | the loop over the lines returns exactly `Parse(lines)` |
| `ParamFile.SkippedLineIrrelevant` | IllustrisTNGDataFetcher.py:171-183 | inserting a blank line, or a line with zero or several colons, anywhere in a file leaves the parameter sets unchanged, and parsing goes on with the following lines |
| `ParamFile.ParseStripped` | IllustrisTNGDataFetcher.py:170-171 | stripping every line beforehand does not change the result: lines are classified only after stripping |
| `ParamFile.ParseAtSeparator` | IllustrisTNGDataFetcher.py:174-177 | a `---` line appends the open set even when it is empty, and the lines after it are read into fresh sets appended after those before it |
| `ParamFile.ParseBySegments` | IllustrisTNGDataFetcher.py:169-188 | the result has one set per `---`-closed block, plus one for the final block exactly when it holds an entry line; the i-th set holds exactly the keys of the i-th block's entry lines, each with the value of its last line, so a repeated key takes the later value |
| `ParamFile.ParseCount` | IllustrisTNGDataFetcher.py:174-188 | the number of sets is the number of `---` lines, plus one when an entry line follows the last of them |
| `Batch.PropagateAt` | IllustrisTNGDataFetcher.py:219-220 | the step keeps the number of sets, and set i becomes set i with `api_key` overwritten |
| `Batch.PropagateApiKey` | IllustrisTNGDataFetcher.py:217-220 | in place, the array afterwards is `Propagated` of the array before; an empty list is left alone |
| `Batch.PropagatedApiKey` | IllustrisTNGDataFetcher.py:218-220 | after the step, every set's `api_key` is the first set's `dict.get('api_key')`, `None` included, whatever the set carried; number and order of sets unchanged |
| `Batch.PropagatedKeepsOthers` | IllustrisTNGDataFetcher.py:219-220 | every key other than `api_key` keeps its presence and value in every set |
| `Batch.PropagatedIdempotent` | IllustrisTNGDataFetcher.py:218-220 | applying the step a second time changes nothing |
| `Batch.BatchSharesFirstApiKey` | IllustrisTNGDataFetcher.py:216-220 | after reading a file and propagating, every set's `api_key` is the value of the last `api_key` line in the file's first block, or `None` when that block has none |
| `Cutout.Select` | IllustrisTNGDataFetcher.py:55 | the filter keeps exactly the table entries whose label is in `datatypes`, in table order; looked up as a dict, a key is present exactly when it is selected, with the table's value |
| `Cutout.SelectDistinct` | IllustrisTNGDataFetcher.py:55 | filtering a table with distinct labels yields distinct labels |
| `Cutout.TableFacts` | IllustrisTNGDataFetcher.py:45-52 | the six table labels are distinct and none is `size` |
| `Cutout.TableLookup` | IllustrisTNGDataFetcher.py:45-52 | a label is found in the table exactly when it is one of the six table labels |
| `Cutout.RequestParams` | IllustrisTNGDataFetcher.py:45-58 | the query has distinct keys; `size` is present exactly when the cube size is truthy, with that value verbatim, and comes last; the field entries before it are in table order; any other key is present exactly when it is in `datatypes`, with the table's field list for it |
| `Cutout.SelectedLabels` | IllustrisTNGDataFetcher.py:45-55 | no label outside the six table labels (other than `size`) ever appears in the query; a table label appears exactly when it is in `datatypes` |
| `Cutout.DisplayLabelsSelectNothing` | IllustrisTNGDataFetcher.py:25-55 | a selection drawn from the form's `PartTypeN (...)` labels yields no field-list parameter at all |
| `Cutout.CubeSizeText` | IllustrisTNGDataFetcher.py:132-134 | the form's cube size is empty exactly when the entry is blank; otherwise it is the stripped entry followed by `Mpc` |
| `Cutout.FormSizeParam` | IllustrisTNGDataFetcher.py:132-138 | through the form, the query has `size` exactly when the entry is not blank, and its value is the stripped entry followed by `Mpc` |
| `Cutout.ObjectPrefix` | IllustrisTNGDataFetcher.py:67 | the file prefix (`subhalo` or `halo`) is the endpoint's object segment (`subhalos` or `halos`) without its final `s` |
| `Cutout.EndpointSegments` | IllustrisTNGDataFetcher.py:41-42 | the endpoint is the six path segments simulation, `snapshots`, snapshot, `subhalos` or `halos` (chosen by `is_subhalo`), object id and `cutout.hdf5` |
| `Cutout.FilenameInjective` | IllustrisTNGDataFetcher.py:67-68 | `{subhalo or halo}_{id}_cutout.hdf5` determines both the object kind and the id, so two downloads with a different object id or a different object kind never write the same file; downloads that differ only in simulation, snapshot, datatypes or size do |

## Left out

- HTTP traffic is not modelled: `fetch_simulations`, the `api-key` header, `requests.get` on `BASE_URL + endpoint`, the status-200 check and the streamed 8192-byte chunk writing of `download_cutout`. They are network and file I/O through a library outside the model.
- The tkinter form (`main`) and the `messagebox` success and error dialogs are not modelled. They are UI. Only the form's cube-size helper is modelled.
- Console output is not modelled: the `print` diagnostics, including "Unexpected format in line", `list_simulations` and the logging setup.
- Command-line dispatch with `argparse` and `sys.exit` is not modelled, except the api_key step. This includes the completeness check that builds an `argparse.Namespace` (it raises on a missing key rather than skipping the set) and the `parts.split(",")` of the command line.
- Opening the parameter file and the catch-all exception that returns `None` are not modelled. The reader works on the file's lines already in memory, so the split of the file into lines is not modelled either.
- Simulation, snapshot and object identifiers are taken as already-rendered text. The decimal formatting that an f-string applies to the command line's integer arguments is not modelled.
- `Batch.PropagateApiKey`: in the source, each set is a distinct dict object mutated in place. The model replaces the map held in each array slot. No two sets share a dict, so nothing observable differs.
- `Cutout.EndpointSegments`: the six-segment reading is stated only for identifiers without `/`. With a `/` in an identifier, the path has more segments.
- `Batch.PropagateApiKey`: the step is modelled on its own, as one complete pass. In the source, the `api_key` write is interleaved with the `argparse.Namespace` completeness check and the download of each set (IllustrisTNGDataFetcher.py:218-223). The first set that lacks a field ends the loop with an uncaught `AttributeError`, and later sets are neither updated nor downloaded. That interleaving is not modelled.
