# Agente E.D.A. — a Dafny model of its analysis and question core

Agente E.D.A. is a Streamlit page for exploring a CSV file. Its core has four parts:

- **EDA engine.** Summaries, histograms, IQR outliers, value frequencies and a k-means guard, over an in-memory table.
- **Conversation memory.** An append-only log of questions and answers, kept in a SQLite table.
- **Gemini client.** Builds the request, checks the status and pulls the answer text out of the reply.
- **Question pipeline.** Builds a prompt from the table and the remembered interactions, asks the model, falls back to an error text when the call fails, and saves the interaction.

This project models that core in Dafny and proves properties of the model. It has seven modules, one per file:

- `Wrappers`: `Option` and `Result`.
- `Text`: Python's `str.join`, `str.split`, `strip`, `lower`, `repr` and integer formatting, as far as the core uses them.
- `Json`: `json.dumps`, compact and indented, and `json.loads`, with the round trip between them.
- `EdaEngine`: `agent/eda_engine.py`.
- `Memory`: `agent/memory.py`. The table is a class, `InteractionStore`, whose methods update its rows in place.
- `LlmClient`: `agent/llm_client.py`.
- `App`: the question pipeline of `streamlit_app.py`. Its `AskQuestion` method reads the memory, calls the model and saves one row.

Parameters stand in for what the program gets from outside:

- The clock is a timestamp parameter `now`.
- The environment is a `Config` value holding the API URL and the key. An unset key is the empty string.
- The HTTP exchange is a function `send` from the request to a reply or a transport failure.
- The correlation matrix is a parameter.
- The fitted k-means labelling is a function `fit`.

Table cells are exact reals. A missing cell is `None`.

Some behaviours of the code that are easy to misread:

- **Memory order.** The memory text is newest first, because `last_k_interactions` reads with `ORDER BY id DESC` and the page joins the records in that order.
- **Zero interactions.** `last_k_interactions(0)` still runs the query, with `LIMIT 0`, and gives an empty list.
- **Empty k-means input.** `kmeans_clusters` on a selection with no complete row, or with no column, fails in the scaler. It does not return the "not enough rows" message. That message comes only when `min(n_clusters, rows) <= 1` and there is at least one row.
- **Prompt contents.** The prompt does not contain the correlation summary. `quick_stats` is computed and then not used.

## Model

| member | source | states |
|---|---|---|
| EdaEngine.FindColumn | agent/eda_engine.py:25 | `df[column]` finds the column with that name, or reports that no column has it |
| EdaEngine.NumericCells | agent/eda_engine.py:25-26 | the first column with the name gives its cells when numeric and `NotNumeric` when text; `ColumnNotFound` exactly when no column has the name |
| EdaEngine.DropNaHas | agent/eda_engine.py:25 | `dropna` keeps exactly the present values |
| EdaEngine.DropNa | agent/eda_engine.py:25 | `dropna` never gives more values than there are cells |
| EdaEngine.DropNaAppend | agent/eda_engine.py:25 | `dropna` works cell by cell: dropping from a concatenation concatenates the results |
| EdaEngine.DropNaMissing | agent/eda_engine.py:30 | a missing cell anywhere does not change what `dropna` gives |
| EdaEngine.NullCountDropNa | agent/eda_engine.py:15 | the null count and the present values together account for every cell |
| EdaEngine.NullCount | agent/eda_engine.py:15 | `isnull().sum()` is at most the number of cells, and zero exactly when every cell holds a value |
| EdaEngine.ColumnNullsBounded | agent/eda_engine.py:15 | no column has more nulls than the table has rows |
| EdaEngine.BasicSummary | agent/eda_engine.py:12-22 | the shape is (rows, columns), and entry `i` of the nulls is column `i`'s name with its exact null count, at most the row count |
| EdaEngine.NullsAtMostCells | agent/eda_engine.py:15-16 | the null counts add up to at most rows × columns |
| EdaEngine.Sort | agent/eda_engine.py:31-32 | the order the quantiles are read from: sorted, and a permutation of the input |
| EdaEngine.Insert | agent/eda_engine.py:31-32 | inserting into a sorted list keeps it sorted and adds exactly that element |
| EdaEngine.SortSorted | agent/eda_engine.py:31-32 | sorting an already sorted list changes nothing |
| EdaEngine.InsertLast | agent/eda_engine.py:31-32 | inserting an element no smaller than the rest appends it |
| EdaEngine.DivMod | agent/eda_engine.py:31-32 | quotient and remainder of the quantile position: `q·d + r == a` and `r < d` |
| EdaEngine.Position | agent/eda_engine.py:31-32 | the linear-interpolation position `(n-1)·p`, split into an index `≤ n-1` and a fraction; a nonzero fraction leaves room for the next element |
| EdaEngine.PositionMonotone | agent/eda_engine.py:31-32 | a larger quantile level never gives an earlier position |
| EdaEngine.Lerp | agent/eda_engine.py:31-32 | linear interpolation stays between its two ends |
| EdaEngine.LerpMonotone | agent/eda_engine.py:31-32 | interpolation grows with the fraction |
| EdaEngine.Quantile | agent/eda_engine.py:31-32 | `Series.quantile` with linear interpolation lies between the smallest and the largest value |
| EdaEngine.QuantileMonotone | agent/eda_engine.py:31-33 | a higher level gives a quantile at least as large, so `q1 <= q3` and `iqr >= 0` |
| EdaEngine.FencesOf | agent/eda_engine.py:31-35 | `iqr = q3 - q1 >= 0`, the fences are `q1 - 1.5·iqr` and `q3 + 1.5·iqr`, and `lower <= q1 <= q3 <= upper` |
| EdaEngine.Outliers | agent/eda_engine.py:36 | the outliers are exactly the values strictly outside the fences |
| EdaEngine.OutliersAppend | agent/eda_engine.py:36 | filtering keeps order: the outliers of a concatenation are the concatenated outliers |
| EdaEngine.Head | agent/eda_engine.py:41 | `head(n)` is a prefix of length `min(n, len)` (for negative `n`, all but the last `-n`) |
| EdaEngine.OutlierReportOf | agent/eda_engine.py:30-42 | for a non-empty column the fences are those of its values; the count is the number of outliers; the sample is their first `min(count, 10)` in order; every sampled value is an input value outside the fences; no fences for an empty column |
| EdaEngine.OutliersIqr | agent/eda_engine.py:29-42 | succeeds exactly when the column exists and is numeric, and then reports on the present values |
| EdaEngine.OutliersIgnoreMissing | agent/eda_engine.py:30 | missing cells do not change the outlier report |
| EdaEngine.ExampleQuartiles | agent/eda_engine.py:31-32 | on 1, 2, 3, 4, 5, 100 the quartiles are 2.25 and 4.75 |
| EdaEngine.ExampleFences | agent/eda_engine.py:33-35 | on the same values iqr is 2.5 and the fences are -1.5 and 8.5 |
| EdaEngine.ExampleOutliers | agent/eda_engine.py:36 | on the same values 100 is the one outlier |
| EdaEngine.OutliersExample | agent/eda_engine.py:29-42 | the whole report for those values: count 1, sample [100] |
| EdaEngine.Min | agent/eda_engine.py:26 | the smallest value, which is one of the values |
| EdaEngine.Max | agent/eda_engine.py:26 | the largest value, which is one of the values |
| EdaEngine.OuterEdges | agent/eda_engine.py:26 | `np.histogram`'s range: (0, 1) for no values, ±0.5 around a single repeated value, otherwise (min, max); always covers every value |
| EdaEngine.BinWidth | agent/eda_engine.py:26 | `bins` equal widths fill the range exactly |
| EdaEngine.EdgeMonotone | agent/eda_engine.py:26 | bin edges strictly increase |
| EdaEngine.EdgeEnds | agent/eda_engine.py:26 | the first edge is the lower end and the last is the upper end |
| EdaEngine.Edges | agent/eda_engine.py:26-27 | `bins + 1` strictly increasing edges from the lower to the upper end |
| EdaEngine.BinIndex | agent/eda_engine.py:26 | every value in range falls in a bin (half-open bins, the last one closed) |
| EdaEngine.BinIndexBounds | agent/eda_engine.py:26 | the bin computed by flooring `(x - lo) / width` holds `x`; the upper end goes to the last bin |
| EdaEngine.InBinUnique | agent/eda_engine.py:26 | no value is in two bins |
| EdaEngine.Counts | agent/eda_engine.py:26 | one count per bin, and the counts add up to the number of values |
| EdaEngine.CountsPerBin | agent/eda_engine.py:26 | the count of bin `b` is the number of values in bin `b` |
| EdaEngine.CountInBinSet | agent/eda_engine.py:26 | that number is the size of the set of positions whose value lies in bin `b` |
| EdaEngine.HistogramOf | agent/eda_engine.py:26-27 | `bins` counts and `bins + 1` increasing edges; the counts add up to the number of values; every value lies between the outer edges |
| EdaEngine.HistogramCounts | agent/eda_engine.py:26-27 | each count is the number of values that fall in its bin |
| EdaEngine.ColumnDistribution | agent/eda_engine.py:24-27 | `ColumnNotFound` exactly when no column has the name; `bins < 1` fails; otherwise the histogram of the present values, with `bins` counts and `bins + 1` edges |
| EdaEngine.HistogramIgnoresMissing | agent/eda_engine.py:25 | missing cells do not change the histogram |
| EdaEngine.Uniques | agent/eda_engine.py:61 | the distinct values, each once |
| EdaEngine.InsertByCount | agent/eda_engine.py:61 | inserting a pair into pairs ordered by falling count keeps the order and adds exactly that pair |
| EdaEngine.SortByCount | agent/eda_engine.py:61 | pairs ordered by falling count, a permutation of the input |
| EdaEngine.ValueCounts | agent/eda_engine.py:61 | `value_counts()`: every present value exactly once with its number of occurrences, by falling count |
| EdaEngine.TopFrequent | agent/eda_engine.py:61 | `value_counts().head(n)`: the first `min(n, distinct values)` entries of the full value counts, each value once with its exact count, by falling count |
| EdaEngine.TopFrequentIsTop | agent/eda_engine.py:61 | a value left out occurs no more often than any value kept |
| EdaEngine.TopFrequentComplete | agent/eda_engine.py:61 | when `n` is at least the number of cells, every value is kept |
| EdaEngine.TopFrequentValues | agent/eda_engine.py:60-61 | fails with `ColumnNotFound` exactly when no column has the name; otherwise the frequency table of that column |
| EdaEngine.NumericColumns | agent/eda_engine.py:48-49 | `select_dtypes(include=[np.number])` keeps exactly the numeric columns |
| EdaEngine.NumericColumnsAppend | agent/eda_engine.py:48-49 | the numeric columns of a concatenation are those of the first part, in order, then those of the second |
| EdaEngine.NumericColumnsSnoc | agent/eda_engine.py:48-49 | one more column is appended to the numeric columns exactly when it is numeric |
| EdaEngine.SelectColumns | agent/eda_engine.py:50 | `df[names]` gives the named columns in the order given; it fails exactly when some name is missing, naming the first missing one (every earlier name is present) |
| EdaEngine.CompleteRows | agent/eda_engine.py:50 | `dropna()` keeps exactly the rows with a value in every selected column, in increasing order |
| EdaEngine.RowValues | agent/eda_engine.py:50-52 | a complete row as a feature vector, one value per selected column |
| EdaEngine.Matrix | agent/eda_engine.py:50-52 | the matrix `X`, one feature vector per complete row |
| EdaEngine.FirstText | agent/eda_engine.py:51-52 | the scaler rejects a selection exactly when it holds a non-numeric column |
| EdaEngine.KMeansClusters | agent/eda_engine.py:47-58 | selection errors pass through; no column or no complete row fails; a text column fails with its name; with `k = min(n_clusters, rows)`, `k <= 1` gives the message with the row count and otherwise `k` with the first 50 labels the clustering gives for the matrix of complete rows |
| Memory.Normalized | agent/memory.py:28 | `metadata or {}`: truthy metadata is kept, anything else becomes `{}` |
| Memory.StoredMetadataDecodes | agent/memory.py:28 | the stored metadata text decodes back to `metadata or {}` |
| Memory.Limit | agent/memory.py:35 | `LIMIT k` takes `min(k, n)` rows; a negative limit takes all |
| Memory.RecentRows | agent/memory.py:35 | `ORDER BY id DESC LIMIT k`: `LIMIT k` rows, row `i` being the `i`-th from the end of the log |
| Memory.LastKOf | agent/memory.py:32-38 | record `i` is the decoded `i`-th newest row; as many records as `LIMIT k` selects |
| Memory.LastKLength | agent/memory.py:32-38 | `min(k, n)` records; none for `k = 0`; all for a negative `k` |
| Memory.RecentRowsNewestFirst | agent/memory.py:35 | the records come newest first, every record left out is older than every record returned, and each one is a stored row |
| Memory.SaveThenLast | agent/memory.py:23-38 | right after a save, the newest record is the one saved, with its metadata as stored |
| Memory.InteractionStore.constructor | agent/memory.py:6 | a fresh database file has no table and no rows |
| Memory.InteractionStore.InitDb | agent/memory.py:8-21 | `CREATE TABLE IF NOT EXISTS`: the table exists afterwards, and existing rows and ids are left alone |
| Memory.InteractionStore.SaveInteraction | agent/memory.py:23-30 | without the table it fails and changes nothing; otherwise it appends exactly one row with the next id, the timestamp, the texts and `json.dumps(metadata or {})` |
| Memory.InteractionStore.LastK | agent/memory.py:32-38 | without the table it fails; otherwise it returns the last `k` records newest first, and the log is not changed |
| Memory.SaveThenRecall | agent/memory.py:23-38 | saving and then asking for one record gives back what was saved |
| LlmClient.Endpoint | agent/llm_client.py:13-14 | the URL is the configured base followed by `/v1beta/models/gemini-2.5-flash:generateContent` |
| LlmClient.BuildRequest | agent/llm_client.py:19-35 | one user message with the prompt as its one text part; the token limit and temperature passed through; the key and content-type headers |
| LlmClient.StatusError | agent/llm_client.py:36 | `raise_for_status` fails exactly for a 4xx or 5xx status, with a message that starts with the status |
| LlmClient.PartTexts | agent/llm_client.py:40 | the texts of the parts fail exactly when some part is of a shape the comprehension cannot handle |
| LlmClient.PartStep | agent/llm_client.py:40 | a part's text is taken exactly when it is an object whose `text` is a string; a part is skipped only when it is an object without `text`, a string or a list |
| LlmClient.PartTextsAppend | agent/llm_client.py:40 | the texts of two stretches of parts are the texts of the first then those of the second; a failing part anywhere fails the whole |
| LlmClient.AllTextParts | agent/llm_client.py:40 | when every part is an object with a string `text`, other keys allowed, the texts are exactly those strings in order |
| LlmClient.Texts | agent/llm_client.py:39-40 | a list of parts gives its part texts; only a list can give a non-empty result; `null`, booleans and numbers cannot be iterated |
| LlmClient.TextPartsInOrder | agent/llm_client.py:40 | a part without `text`, anywhere in the list, changes nothing; the other parts keep their order |
| LlmClient.Extract | agent/llm_client.py:38-41 | an extracted answer is already stripped |
| LlmClient.ExtractOneCandidate | agent/llm_client.py:39-41 | for any reply whose first candidate's content holds a list of parts, whatever other keys and candidates it has, the answer is the part texts joined by newlines and stripped, or the fallback when a part cannot be read |
| LlmClient.ExtractExample | agent/llm_client.py:39-41 | two text parts around an inline-data part give the two texts on two lines |
| LlmClient.StripExample | agent/llm_client.py:41 | `strip` removes the trailing space and keeps the inner newline |
| LlmClient.OnlyFirstCandidate | agent/llm_client.py:39 | two replies whose candidate lists start with the same candidate give the same extraction |
| LlmClient.AnswerText | agent/llm_client.py:38-43 | the extracted text when extraction succeeds |
| LlmClient.FallbackDecodes | agent/llm_client.py:42-43 | when extraction fails, the answer is the reply as indented JSON, which decodes back to the reply |
| LlmClient.NoCandidatesFallsBack | agent/llm_client.py:39-43 | a reply without candidates is answered with its own JSON text |
| LlmClient.CallGemini | agent/llm_client.py:16-43 | no key: the missing-key error and nothing sent; a transport failure is passed on; a 4xx or 5xx reply gives its status error; any other reply gives the answer text of its body |
| LlmClient.MissingKeyBeforeRequest | agent/llm_client.py:17-18 | without a key the outcome does not depend on the network at all |
| App.NumericNames | streamlit_app.py:50 | name `i` is the name of the `i`-th numeric column, in table order |
| App.TopCols | streamlit_app.py:53 | `numeric_cols[:5]`: the first `min(5, n)` numeric column names |
| App.CorrTop | streamlit_app.py:58 | the first five correlation rows, unchanged |
| App.QuickStatsOf | streamlit_app.py:55-59 | the shape, at most five numeric names as a prefix, and at most five correlation rows as a prefix |
| App.MemoryLine | streamlit_app.py:63 | a memory line starts with `timestamp | Q: query | A: ` and ends with the answer |
| App.MemoryLines | streamlit_app.py:63 | one line per interaction, in order |
| App.MemoryText | streamlit_app.py:63 | no interactions give the empty text; otherwise the text starts with the first interaction's line |
| App.MemoryTextSnoc | streamlit_app.py:63 | one more interaction adds a newline and its line at the end |
| App.MemoryTextLines | streamlit_app.py:63 | when no field spans lines, splitting the memory text at newlines gives back exactly the lines; no interactions give the empty text |
| App.NoContextNoMemory | streamlit_app.py:46-63 | with `n_context = 0` the memory text is empty |
| App.PromptLines | streamlit_app.py:65-75 | the prompt's lines are the question, shape, sample-column and instruction lines, then the memory text's lines, then an empty last line |
| App.SplitJoinThen | streamlit_app.py:65-75 | splitting the joined prompt lines gives back the fixed lines and the memory text's own lines |
| App.PromptHeadOneLine | streamlit_app.py:66-73 | each fixed line of the prompt is a single line when the question is |
| App.LlmAnswer | streamlit_app.py:77-80 | the model's text, or `Erro ao chamar LLM: ` followed by the error message |
| App.QuestionAnswer | streamlit_app.py:65-80 | the answer is the model's text for the question prompt, or the error prefix followed by the error message; without a key it is the prefix and the missing-key message |
| App.ShapeMetadata | streamlit_app.py:85 | the saved metadata maps `dataset_shape` to the shape, and is never replaced by `{}` |
| App.HistogramKeywords | streamlit_app.py:88 | a histogram is wanted exactly when the lower-cased question contains `hist` or `distribui` |
| App.HistogramExample | streamlit_app.py:88 | "Show a Histogram" asks for one |
| App.HistogramColumn | streamlit_app.py:90 | `Amount` when present, otherwise the first numeric column; none only when there is neither |
| App.FirstNumeric | streamlit_app.py:90 | the first numeric column is the earliest numeric column of the table |
| App.HistogramRequest | streamlit_app.py:88-90 | a histogram is requested exactly when the question asks for one, with the column the heuristic picks |
| App.Consult | streamlit_app.py:62-80 | the table exists afterwards, no row changes, and the answer is the one for the prompt built from the last `n_context` records |
| App.Remember | streamlit_app.py:85 | exactly one row is appended, holding the question, the answer and the shape metadata |
| App.AskQuestion | streamlit_app.py:48-85 | the answer uses the memory as it was before the question; exactly one row is added after the earlier rows, unchanged, and it holds the question, that answer and the shape |
| App.AskedThenRemembered | streamlit_app.py:62-85 | the next question's memory starts with the interaction just saved, with the shape as its metadata |
| Text.SplitJoin | streamlit_app.py:63 | splitting a newline-joined text gives back its lines when no line holds a newline |
| Text.JoinSplit | streamlit_app.py:63 | joining the pieces of a split gives back the text |
| Text.JoinCons | streamlit_app.py:63 | `sep.join` of a first piece and the rest puts the separator between them |
| Text.JoinSnoc | streamlit_app.py:63 | `sep.join` of the pieces and one more puts the separator before the last |
| Text.Split | streamlit_app.py:63 | splitting at a character gives at least one piece, and no piece holds that character |
| Text.SplitAround | streamlit_app.py:65-75 | splitting at a separator splits each side on its own |
| Text.JoinWithout | streamlit_app.py:63 | joining pieces without a character, using a separator without it, gives a text without it |
| Text.ContainsIffOccurs | streamlit_app.py:88 | the `in` test on strings holds exactly when the text occurs at some position |
| Text.ContainsPrefixOf | streamlit_app.py:88 | a question containing `distribuição` also contains `distribui` |
| Text.Strip | agent/llm_client.py:41 | `strip` removes only white space at both ends and leaves no white space there |
| Text.StripTrimmed | agent/llm_client.py:41 | a text without white space at its ends is unchanged by `strip` |
| Text.StripIdempotent | agent/llm_client.py:41 | stripping twice is stripping once |
| Text.LowerIdempotent | streamlit_app.py:88 | the modelled `lower` keeps the length and lower-casing twice is lower-casing once |
| Text.Lower | streamlit_app.py:88 | `lower` keeps the length, maps ASCII capitals to small letters, and leaves small letters, digits and spaces alone |
| Text.NatText | streamlit_app.py:67 | a number's decimal text is non-empty digits without a leading zero |
| Text.NatTextValue | streamlit_app.py:67 | the digits read back as the number |
| Text.DigitRunOf | agent/memory.py:38 | the digit run of a number's text stops at the first non-digit |
| Text.StrReprPlain | streamlit_app.py:68 | `repr` of a plain name is the name in single quotes |
| Text.ListReprOneLine | streamlit_app.py:68 | the list of sample columns prints on one line |
| Text.PairReprOneLine | streamlit_app.py:67 | the shape tuple prints on one line |
| Json.Lookup | agent/memory.py:38 | a key lookup in a decoded object succeeds exactly when the key is present, and gives a value stored under it |
| Json.LookupLast | agent/llm_client.py:39 | when a key occurs more than once, the last member with it is the one found, as a dict built from the text keeps |
| Json.ParseQuoted | agent/memory.py:28-38 | every string, escaped as `json.dumps` escapes it, decodes back to itself |
| Json.ParseIntText | agent/memory.py:28-38 | every integer's text decodes back to the integer |
| Json.ParseEncoded | agent/memory.py:28-38 | every value, compact or indented at any depth, decodes back to itself |
| Json.LoadsDumps | agent/memory.py:28-38 | `json.loads(json.dumps(j)) == j`, compact or with `indent` |

## Left out

- Reading the CSV (`load_csv`, eda_engine.py:8-10): the model starts from an in-memory table of numeric and text columns.
- `describe(include='all')` and the per-column dtype strings in `basic_summary`: floating-point statistics and pandas' type names are not modelled. Only the shape and the null counts are.
- `correlation_matrix` (eda_engine.py:44-45): it is a parameter of `QuickStatsOf`. Pearson correlation on floats is not modelled.
- The k-means fit and the standard scaler (eda_engine.py:51-52, 56-57): the labelling is the parameter `fit`, so the fixed seed and centroid search are not modelled.
- EdaEngine.KMeansClusters: does not state that the labels are deterministic, because the clustering itself is a parameter.
- EdaEngine.BasicSummary: states the shape and null counts only, because `describe` and `dtypes` are left out.
- EdaEngine.SelectColumns: fails with the first missing name only, whereas pandas' `KeyError` lists every missing name.
- Text.Lower: case mapping covers ASCII and Latin-1 only. Python's `lower` also maps other scripts and can lengthen a text (`'İ'.lower()` is two characters), so a question such as "DISTRIBUİ…" asks for a histogram in Python but not in this model.
- Text.LowerIdempotent: holds for the modelled Latin-1 mapping; it is not a claim about Python's full Unicode `lower`.
- Text.StrReprPlain, Text.ListReprOneLine, Text.PairReprOneLine: `repr` escapes only backslash, the enclosing quote and the non-printable Latin-1 characters. Python's `repr` also escapes other non-printable characters such as U+2028 and U+200B.
- Floating point: cells are exact reals, so rounding in quantiles, fences and bin edges is not modelled. NaN appears only as a missing cell.
- `value_counts` tie order: ties keep the order of first occurrence. pandas does not promise any particular tie order.
- JSON numbers are integers only. Floats in metadata or replies are not modelled, and the shape is saved as a list of two integers, the way a tuple is encoded.
- A reply body that is not JSON (`r.json()` raising): the reply body is already a decoded JSON value.
- SQLite itself, the database file path and connections: the table is an in-memory sequence of rows with a flag for whether it exists.
- `datetime.utcnow()` is the parameter `now`. `load_dotenv` and `os.environ` are the `Config` value. `requests.post` and its 30-second timeout are the parameter `send`.
- The Streamlit widgets, the summary button, the PDF report (`agent/pdf_report.py`) and the chart rendering (`agent/plot_utils.py`) are not part of this model. The automatic histogram after a question is modelled only as the column `HistogramRequest` chooses.
- The sidebar's outlier button (streamlit_app.py:96-99) and its memory view (streamlit_app.py:116) call `outliers_iqr` on the first numeric column and `last_k_interactions(5)`. Both are covered by `OutliersIqr`, `FirstNumeric` and `LastK` and are not modelled again.
- App.HistogramColumn: returns `None` where the page would fail with an `IndexError` for a table without numeric columns.
