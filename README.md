# Interactive topic viewer: indexer and aggregator

This project models, in Dafny, the logic of `app.py`, a dashboard that
charts topic proportions over time. It has three parts.

- **File partition** (module `Indexer`). The dashboard walks its data
  directory and puts each file into one of two lists:
  - a *document* file has `document_info` in its name;
  - a *label* file has `topic_representation` in its name, and not
    `document_info`.
- **Classifier and index** (modules `Classifier` and `Indexer`).
  - The base name of each document file gives a polarity (`positive` or
    `negative`), a model tag (`UHC`, `LM` or `BT`) and a k string.
  - A document is paired with the first label file whose path contains the
    polarity, the tag and `k=<k>`. The pair is stored under the key
    `(polarity + tag, k)`.
  - The keys give the two selector lists: the sorted model ids and the k
    values in numeric order.
- **Aggregation** (module `Aggregator`). The callback takes a selected key
  and reads the document and label tables of the pair.
  - It drops rows without a date or a topic.
  - It counts the rows per (date, topic) and totals the counts per date.
  - It gives each topic a label: the first five tokens of its
    representation, or `"Unknown"`.

The supporting modules model Python's own operations:

- `Strings`: `in`, `split`, `join` and `replace` on `str`;
- `Paths`: `os.path.join` and `os.path.basename` on POSIX paths;
- `Ordering`: `sorted` on strings and `sorted(..., key=int)` on digit
  strings;
- `Wrappers`: `Option` and Python truthiness of an optional string.

The two loops that build lists and the dictionary are methods:

- `PartitionFiles` is proved equal to the `Collect` fold;
- `BuildIndex` is proved equal to the `IndexOf` fold.

The properties are stated as lemmas about those folds.

The model keeps the behaviour of the code as it is written:

- The label test looks for the polarity, the tag and `k=<k>` anywhere in
  the label file's full path, not only in its base name.
- A document whose name holds `Brian` but neither `UHC` nor `LM` is tagged
  `BT`, and the label path must then contain `BT`.
- `k=1` is a substring of `k=10`. A document of k `1` can therefore be
  paired with a `k=10` label file that is listed before its own.

The rendering of the chart and the click-to-text view are not modelled.
`app.py` contains no click handler.

## Model

| member | source | states |
|---|---|---|
| `Strings.AfterLastOccurrence` | app.py:30 | `s.split(sep)[-1]` contains no `sep`. When `sep` occurs, it is the suffix that follows the last occurrence. Otherwise it is the whole string. |
| `Strings.JoinSplit` | app.py:30 | Joining the pieces of `s.split(sep)` with `sep` gives back `s`. |
| `Strings.SplitContains` | app.py:30 | A split has two or more pieces exactly when the separator occurs in the string. |
| `Strings.SplitPiecesFree` | app.py:30 | No piece of a split contains the separator. |
| `Strings.ReplaceIsJoinOfSplit` | app.py:30 | `s.replace(pat, rep)` equals `rep.join(s.split(pat))`. |
| `Strings.ReplaceAbsent` | app.py:30 | Replacing a pattern that does not occur leaves the string unchanged. |
| `Strings.SplitJoin` | app.py:75 | For a non-empty list of tokens, splitting `" ".join(tokens)` on the space gives back the tokens, when no token contains a space. |
| `Paths.BasenameOfJoin` | app.py:19-27 | `basename(join(root, f))` is `f` for a file name without `/`. |
| `Ordering.SortedStrings` | app.py:37 | `sorted(set)` of strings holds exactly the set's elements, in strictly increasing `str` order. |
| `Ordering.SortedByValue` | app.py:38 | `sorted(set, key=int)` of digit strings holds exactly the set's elements, each once, in non-decreasing order of integer value. |
| `Ordering.StrictlySortedDistinct` | app.py:37 | A strictly sorted list, such as the sorted model ids, holds no string twice. |
| `Ordering.LessTotal` | app.py:37 | Python's `<` on distinct strings orders them one way or the other. |
| `Ordering.LessTransitive` | app.py:37 | Python's `<` on strings is transitive. |
| `Classifier.PolarityOf` | app.py:28 | The polarity is `"positive"` whenever the name contains `positive`, even if it also contains `negative`. It is `"negative"` when the name contains only `negative`, and none when it contains neither. |
| `Classifier.ModelTagOf` | app.py:29 | The tag is `UHC` whenever the name contains `UHC`. Otherwise it is `LM` when the name contains `LM`, and otherwise `BT` when it contains `Brian`. It is none exactly when the name holds none of the three tokens. |
| `Classifier.KStringOf` | app.py:30 | A k string exists exactly when the name contains `k=`. |
| `Classifier.KStringAfterLastK` | app.py:30 | The k string is the text after the last `k=`, which holds no `k=` and ends the name, with `mini.csv` and then `.csv` removed. |
| `Classifier.KStringOfCleanTail` | app.py:30 | When the text after the last `k=` contains neither `mini.csv` nor `.csv`, the k string is exactly that text. |
| `Classifier.Classify` | app.py:27-31 | A name is classified exactly when polarity, tag and k string are all non-empty. The classification then holds exactly those three values: a known polarity, a known tag and a non-empty k. |
| `Classifier.ClassifyComplete` | app.py:28-31 | Classification succeeds exactly when the name holds a polarity token, a model token and a `k=` whose k string is non-empty. |
| `Classifier.ModelIdKnown` | app.py:32 | A model id is one of the six concatenations of polarity and tag. |
| `Classifier.ModelIdInjective` | app.py:32 | Two classifications with the same model id have the same polarity and tag. |
| `Indexer.PartitionFiles` | app.py:16-23 | The nested loop returns, in walk order, the full paths of the `document_info` files and of the other `topic_representation` files. |
| `Indexer.CollectAppend` | app.py:17-23 | Collecting over two consecutive parts of a walk concatenates the two results, so walk order is kept. |
| `Indexer.CollectSound` | app.py:20-23 | Every collected path's base name passes that list's test. |
| `Indexer.CollectComplete` | app.py:18-23 | Every walked file whose name passes a list's test is in that list under its joined path. |
| `Indexer.PartitionDisjoint` | app.py:20-23 | Document paths name `document_info`. Label paths name `topic_representation` and not `document_info`. No path is in both lists. |
| `Indexer.FirstLabel` | app.py:33 | The result is none exactly when no label file matches. Otherwise it is a matching label file preceded only by non-matching ones, so it is the first match. |
| `Indexer.BuildIndex` | app.py:25-35 | The loop over the document files builds exactly the `IndexOf` map. |
| `Indexer.IndexKeys` | app.py:26-35 | A key is in the index exactly when some document file produces it. |
| `Indexer.IndexLastWriteWins` | app.py:35 | A key's entry comes from the last document file that produces that key. |
| `Indexer.IndexEntryOrigin` | app.py:26-35 | Each entry's document is in the document list, and that document produces this very entry. |
| `Indexer.IndexEntrySound` | app.py:27-35 | Each entry pairs a classifiable document with the first matching label file. Its key is the document's `(model_id, k)`. |
| `Indexer.IndexKeysKnown` | app.py:32-35 | Every key has one of the six model ids and a non-empty k string. |
| `Indexer.IndexOfWalkSound` | app.py:16-35 | Over a walk, each entry's document names `document_info`. Its label names `topic_representation` and not `document_info`. |
| `Indexer.PolarityFromDirectory` | app.py:33 | A label file under a directory whose path holds the polarity passes the polarity test, whatever its own name says. |
| `Indexer.KPrefixMatches` | app.py:33 | A label path containing `k=<k>` followed by more text passes the k test for `k`. |
| `Indexer.KPrefixPicksEarlier` | app.py:33 | A document of k `1` is paired with a `k=10` label file listed before its own. |
| `Indexer.BrianNeedsBT` | app.py:29-33 | A document whose name holds `Brian` but neither `UHC` nor `LM` has the tag `BT`. It gets no label when no label path contains `BT`. |
| `Indexer.Models` | app.py:37 | The model list is strictly sorted and holds exactly the first key components. |
| `Indexer.KValues` | app.py:38 | The k list holds exactly the second key components, each once, in non-decreasing integer order. |
| `Indexer.ModelsKnown` | app.py:37 | The model list holds only the six known model ids. |
| `Aggregator.TallyCounts` | app.py:67-69 | The groups have distinct cells and positive counts. The count of every (date, topic) is the number of rows with that date and topic. |
| `Aggregator.TotalsCountRows` | app.py:70 | A date's total is the number of kept rows with that date. |
| `Aggregator.RowsAtAtMostRowsOn` | app.py:69-70 | A (date, topic) count never exceeds the date's row count. |
| `Aggregator.MergeAll` | app.py:71 | When every group's date has a total, the merge keeps every group in order and attaches its total and label. |
| `Aggregator.ChartFromGroups` | app.py:67-78 | The final table has one row per group, in order, with the group's count, its date's total and its topic's label. |
| `Aggregator.ChartBarCounts` | app.py:66-78 | Each row's count is the number of its (date, topic) rows and its total the number of its date's rows, with `1 <= count <= total`. Its label is the map's label for its topic, or none. |
| `Aggregator.ChartBarsDistinct` | app.py:69-71 | No (date, topic) pair appears twice in the table. |
| `Aggregator.ChartCoversRows` | app.py:66-71 | A (date, topic) pair has a row exactly when some document row has that date and topic. |
| `Aggregator.ChartSumsToTotal` | app.py:69-72 | The counts of a date add up to its total, so its proportions sum to one. |
| `Aggregator.ChartExample` | app.py:66-78 | Rows (2024-01-01, 0), (2024-01-01, 1), (2024-01-01, 0) give topic 0 count 2 and topic 1 count 1, each of total 3. |
| `Aggregator.LabelWords` | app.py:74-76 | For a non-empty list of tokens, a label splits back into the first five tokens of its representation, when the tokens hold no space. |
| `Aggregator.LabelMapKeys` | app.py:77 | The label map has a key exactly for each topic of the label table. |
| `Aggregator.LabelMapLastWins` | app.py:74-77 | A topic's label comes from its last row in the label table, or is `"Unknown"` when that row's representation is null. |
| `Aggregator.UpdateGraph` | app.py:58-91 | The result is "No data found." exactly when the pair is not in the index. When the pair is indexed, a missing document table is reported by its path. When the document table is present, a missing label table is reported by its path. When both tables are present, the result is always a chart: `Chart` of the two tables, titled `"<model>, k=<kval>"`. |

## Left out

- Directory traversal is an input. `os.walk` and the startup check that the data folder exists are filesystem I/O: the walk is a sequence of (directory, file names) steps.
- The file names of a walk are assumed to contain no `/` (`WellFormedWalk`), as `os.walk` guarantees.
- CSV parsing is an input. `pd.read_csv`, `pd.to_datetime(..., errors='coerce')` and `ast.literal_eval` are foreign library code. Document rows arrive already parsed into an optional date and an optional integer topic. A representation arrives as an optional list of strings.
- `pd.read_csv` raises for a missing file. The model returns a `MissingFile` value instead of raising an exception.
- A malformed representation, which makes `literal_eval` raise, is not modelled.
- `Proportion` is a float division, so it is not computed. Each row keeps the integer pair `(count, total)`, and the sums are stated on the counts.
- Chart: its rows come in the order in which each (date, topic) pair first appears. pandas' `groupby` sorts them by date and topic, so the model's row order is not the source's.
- The `DateTime` column and the `px.bar` figure's styling are not modelled.
- Dash layout, dropdown options, callback registration and `app.run_server` are UI and server code.
- The dropdowns' initial `None` value, when the index is empty, is only covered as a pair that is not in the index.
- KValues: requires every k string to be decimal digits. For other strings `int()` raises `ValueError` or accepts a sign, spaces and `_`, and the model does not capture either case.
- Models and KValues are ghost functions. Sorting a set needs a choice of least element, which is stated by its properties and not computed.
- The data frame is modified in place (`dropna(inplace=True)` and the column assignments). It is local to the callback and never aliased, so each step is a value-to-value function.
- Process startup (`WORKING_DIR`, the `PORT` environment variable) is left out.
- The click-to-text view of the dashboard is not part of this model: `app.py` has no click callback.
