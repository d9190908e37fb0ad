/** The question pipeline of the Streamlit page: the quick statistics, the memory text, the
    prompt, the call to the language model with its error fallback, the single save of the
    interaction, and the rule that asks for a histogram and picks its column. */
module App {
  import opened Wrappers
  import opened Text
  import opened Json
  import opened EdaEngine
  import opened Memory
  import opened LlmClient

  // ---------------------------------------------------------------------
  // Quick statistics
  // ---------------------------------------------------------------------

  /** `df.select_dtypes(include=['number']).columns.tolist()`. */
  function NumericNames(t: Table): (r: seq<string>)
    ensures |r| == |NumericColumns(t.columns)|
    ensures forall i :: 0 <= i < |r| ==> exists c :: c in t.columns && IsNumeric(c) && c.name == r[i]
    ensures forall i :: 0 <= i < |r| ==> r[i] == NumericColumns(t.columns)[i].name
  {
    var cols := NumericColumns(t.columns);
    assert forall i :: 0 <= i < |cols| ==> cols[i] in cols;
    seq(|cols|, i requires 0 <= i < |cols| => cols[i].name)
  }

  /** `numeric_cols[:5]`: the first five numeric column names, or all of them when there are fewer. */
  function TopCols(t: Table): (r: seq<string>)
    ensures |r| == if |NumericNames(t)| < 5 then |NumericNames(t)| else 5
    ensures r == NumericNames(t)[..|r|]
  {
    Head(NumericNames(t), 5)
  }

  /** The correlation mapping, column by column, in its key order. */
  type Correlations = seq<(string, seq<(string, real)>)>

  /** `{k: corr[k] for k in list(corr.keys())[:5]}`: the first five keys with their rows unchanged. */
  function CorrTop(corr: Correlations): (r: Correlations)
    ensures |r| == if |corr| < 5 then |corr| else 5
    ensures forall i :: 0 <= i < |r| ==> r[i] == corr[i]
  {
    Head(corr, 5)
  }

  datatype QuickStats = QuickStats(shape: (nat, nat), numericColumnsSample: seq<string>, corrTop: Correlations)

  /** The `quick_stats` mapping. It is computed but enters neither the prompt nor the saved record. */
  function QuickStatsOf(t: Table, corr: Correlations): (q: QuickStats)
    ensures q.shape == (t.rows, |t.columns|)
    ensures |q.numericColumnsSample| <= 5 && |q.numericColumnsSample| <= |NumericNames(t)|
    ensures q.numericColumnsSample == NumericNames(t)[..|q.numericColumnsSample|]
    ensures |q.corrTop| <= 5 && |q.corrTop| <= |corr| && q.corrTop == corr[..|q.corrTop|]
  {
    QuickStats((t.rows, |t.columns|), TopCols(t), CorrTop(corr))
  }

  // ---------------------------------------------------------------------
  // Memory text and prompt
  // ---------------------------------------------------------------------

  /** One remembered interaction: `"<timestamp> | Q: <query> | A: <answer>"`. */
  function MemoryLine(m: Interaction): (line: string)
    ensures StartsWith(line, m.timestamp + " | Q: " + m.userQuery + " | A: ")
    ensures |m.agentResponse| <= |line| && line[|line| - |m.agentResponse|..] == m.agentResponse
  {
    m.timestamp + " | Q: " + m.userQuery + " | A: " + m.agentResponse
  }

  function MemoryLines(ms: seq<Interaction>): (lines: seq<string>)
    ensures |lines| == |ms| && forall i :: 0 <= i < |ms| ==> lines[i] == MemoryLine(ms[i])
  {
    seq(|ms|, i requires 0 <= i < |ms| => MemoryLine(ms[i]))
  }

  /** The remembered interactions, one line each, joined by newlines, in the order given. */
  function MemoryText(ms: seq<Interaction>): (r: string)
    ensures ms == [] ==> r == ""
    ensures |ms| >= 1 ==> StartsWith(r, MemoryLine(ms[0]))
  {
    Join(MemoryLines(ms), "\n")
  }

  /** One more interaction adds a newline and its line at the end. */
  lemma MemoryTextSnoc(ms: seq<Interaction>, m: Interaction)
    requires ms != []
    ensures MemoryText(ms + [m]) == MemoryText(ms) + "\n" + MemoryLine(m)
  {
    assert MemoryLines(ms + [m]) == MemoryLines(ms) + [MemoryLine(m)];
    JoinSnoc(MemoryLines(ms), MemoryLine(m), "\n");
  }

  predicate SingleLine(m: Interaction)
  {
    '\n' !in m.timestamp && '\n' !in m.userQuery && '\n' !in m.agentResponse
  }

  /** The memory text holds exactly one line per interaction, in order, when no field spans lines;
      with no interactions it is empty. */
  lemma MemoryTextLines(ms: seq<Interaction>)
    requires forall i :: 0 <= i < |ms| ==> SingleLine(ms[i])
    ensures |ms| >= 1 ==> Split(MemoryText(ms), '\n') == MemoryLines(ms)
    ensures |ms| == 0 ==> MemoryText(ms) == ""
  {
    var lines := MemoryLines(ms);
    forall i | 0 <= i < |ms|
      ensures '\n' !in lines[i]
    {
      var m := ms[i];
      assert lines[i] == m.timestamp + " | Q: " + m.userQuery + " | A: " + m.agentResponse;
    }
    if |ms| >= 1 {
      SplitJoin(lines, '\n');
    }
  }

  /** With `n_context = 0` nothing is remembered, so the memory text is empty. */
  lemma NoContextNoMemory(rows: seq<Row>)
    requires Decodable(rows)
    ensures MemoryText(LastKOf(rows, 0)) == ""
  {
    LastKLength(rows, 0);
  }

  /** The fixed texts of the prompt (written in short pieces so that each can be checked for
      line breaks on its own). */
  const Asked: string := "You are an EDA assistant." + " The user asked: "
  const ShapeLabel: string := "Dataset shape: "
  const ColumnsLabel: string := "Numeric sample" + " columns: "
  const Step1: string := "1) A concise answer" + " to user's question."
  const Step2: string := "2) If relevant," + " list of steps and" + " a short Python snippet" + " to reproduce results."
  const Step3: string := "3) If the answer" + " requires numeric summary," + " include JSON with" + " the necessary numbers."

  /** The fixed lines between the sample columns and the memory text. */
  const Instructions: seq<string> := ["Provide:", Step1, Step2, Step3, "Memory:"]

  /** The lines of the prompt before the memory text. */
  function PromptHead(userQ: string, shape: (nat, nat), topCols: seq<string>): seq<string>
  {
    ["",
     Asked + userQ,
     ShapeLabel + PairRepr(shape.0, shape.1),
     ColumnsLabel + ListRepr(topCols)]
    + Instructions
  }

  /** The prompt f-string: a leading newline, the question, shape and sample columns, the three
      instructions, then the memory text and a final newline. */
  function Prompt(userQ: string, shape: (nat, nat), topCols: seq<string>, memoryText: string): string
  {
    Join(PromptHead(userQ, shape, topCols) + [memoryText, ""], "\n")
  }

  lemma {:induction false} SplitJoinThen(xs: seq<string>, mem: string, c: char)
    requires forall i :: 0 <= i < |xs| ==> c !in xs[i]
    ensures Split(Join(xs + [mem, ""], [c]), c) == xs + Split(mem, c) + [""]
  {
    if xs == [] {
      assert xs + [mem, ""] == [mem, ""];
      SplitJoinLast(mem, c);
      assert xs + Split(mem, c) + [""] == Split(mem, c) + [""];
    } else {
      var rest := xs[1..] + [mem, ""];
      var pieces := xs[1..] + Split(mem, c) + [""];
      ConsRegroup(xs, [mem, ""]);
      SplitJoinThen(xs[1..], mem, c);
      SplitJoinStep(xs[0], rest, pieces, c);
      ConsRegroup(xs, Split(mem, c) + [""]);
      assert xs[1..] + Split(mem, c) + [""] == xs[1..] + (Split(mem, c) + [""]);
      assert xs + Split(mem, c) + [""] == xs + (Split(mem, c) + [""]);
    }
  }

  lemma ConsRegroup<T>(xs: seq<T>, ys: seq<T>)
    requires xs != []
    ensures xs + ys == [xs[0]] + (xs[1..] + ys)
  {
    assert xs == [xs[0]] + xs[1..];
  }

  /** A trailing empty piece becomes a trailing separator, which splits off an empty piece. */
  lemma SplitJoinLast(mem: string, c: char)
    ensures Split(Join([mem, ""], [c]), c) == Split(mem, c) + [""]
  {
    assert [mem, ""] == [mem] + [""];
    JoinCons(mem, [""], [c]);
    SplitAround(mem, "", c);
    assert mem + [c] + "" == mem + [c];
  }

  /** One more separator-free piece in front of a joined list adds one piece in front of its split. */
  lemma SplitJoinStep(x: string, rest: seq<string>, pieces: seq<string>, c: char)
    requires c !in x && |rest| > 0
    requires Split(Join(rest, [c]), c) == pieces
    ensures Split(Join([x] + rest, [c]), c) == [x] + pieces
  {
    JoinCons(x, rest, [c]);
    SplitAtSeparator(x, Join(rest, [c]), c);
  }

  lemma NoNewlineConcat(a: string, b: string)
    requires '\n' !in a && '\n' !in b
    ensures '\n' !in a + b
  {
  }

  lemma LabelsOneLine()
    ensures '\n' !in Asked && '\n' !in ShapeLabel && '\n' !in ColumnsLabel
  {
    assert '\n' !in "You are an EDA assistant." && '\n' !in " The user asked: ";
    NoNewlineConcat("You are an EDA assistant.", " The user asked: ");
    assert '\n' !in ShapeLabel;
    assert '\n' !in "Numeric sample" && '\n' !in " columns: ";
    NoNewlineConcat("Numeric sample", " columns: ");
  }

  lemma Step1OneLine()
    ensures '\n' !in Step1
  {
    assert '\n' !in "1) A concise answer" && '\n' !in " to user's question.";
    NoNewlineConcat("1) A concise answer", " to user's question.");
  }

  lemma Step2OneLine()
    ensures '\n' !in Step2
  {
    assert '\n' !in "2) If relevant," && '\n' !in " list of steps and";
    assert '\n' !in " a short Python snippet" && '\n' !in " to reproduce results.";
    NoNewlineConcat("2) If relevant,", " list of steps and");
    NoNewlineConcat("2) If relevant," + " list of steps and", " a short Python snippet");
    NoNewlineConcat("2) If relevant," + " list of steps and" + " a short Python snippet", " to reproduce results.");
  }

  lemma Step3OneLine()
    ensures '\n' !in Step3
  {
    assert '\n' !in "3) If the answer" && '\n' !in " requires numeric summary,";
    assert '\n' !in " include JSON with" && '\n' !in " the necessary numbers.";
    NoNewlineConcat("3) If the answer", " requires numeric summary,");
    NoNewlineConcat("3) If the answer" + " requires numeric summary,", " include JSON with");
    NoNewlineConcat("3) If the answer" + " requires numeric summary," + " include JSON with", " the necessary numbers.");
  }

  lemma InstructionsOneLine()
    ensures forall i :: 0 <= i < |Instructions| ==> '\n' !in Instructions[i]
  {
    Step1OneLine();
    Step2OneLine();
    Step3OneLine();
    assert '\n' !in "Provide:" && '\n' !in "Memory:";
  }

  /** No line of the head spans two lines, whatever the sample column names hold. */
  lemma PromptHeadOneLine(userQ: string, shape: (nat, nat), topCols: seq<string>)
    requires '\n' !in userQ
    ensures forall i :: 0 <= i < |PromptHead(userQ, shape, topCols)| ==> '\n' !in PromptHead(userQ, shape, topCols)[i]
  {
    PairReprOneLine(shape.0, shape.1);
    ListReprOneLine(topCols);
    LabelsOneLine();
    NoNewlineConcat(Asked, userQ);
    NoNewlineConcat(ShapeLabel, PairRepr(shape.0, shape.1));
    NoNewlineConcat(ColumnsLabel, ListRepr(topCols));
    InstructionsOneLine();
    var head := PromptHead(userQ, shape, topCols);
    assert forall i :: 4 <= i < |head| ==> head[i] == Instructions[i - 4];
  }

  /** The prompt, read line by line: the fixed head with the question, the shape and the sample
      columns in that order, then the lines of the memory text, then an empty last line. */
  lemma PromptLines(userQ: string, shape: (nat, nat), topCols: seq<string>, memoryText: string)
    requires '\n' !in userQ
    ensures Split(Prompt(userQ, shape, topCols, memoryText), '\n')
            == PromptHead(userQ, shape, topCols) + Split(memoryText, '\n') + [""]
  {
    PromptHeadOneLine(userQ, shape, topCols);
    SplitJoinThen(PromptHead(userQ, shape, topCols), memoryText, '\n');
  }

  // ---------------------------------------------------------------------
  // The answer and the histogram rule
  // ---------------------------------------------------------------------

  const ErrorPrefix: string := "Erro ao chamar LLM: "

  /** `llm_answer`: the model's text, or the error text after the prefix. */
  function LlmAnswer(r: Result<string, LlmError>): (answer: string)
    ensures r.Ok? ==> answer == r.value
    ensures r.Err? ==> StartsWith(answer, ErrorPrefix) && answer[|ErrorPrefix|..] == r.error.message
  {
    match r
    case Ok(text) => text
    case Err(e) => ErrorPrefix + e.message
  }

  /** The record saved with every question. */
  const ShapeKey: string := "dataset" + "_shape"

  function ShapeMetadata(t: Table): (m: Json)
    ensures Truthy(m)
    ensures m.JObj? && Lookup(m.members, ShapeKey) == Some(JArr([JInt(t.rows), JInt(|t.columns|)]))
  {
    JObj([(ShapeKey, JArr([JInt(t.rows), JInt(|t.columns|)]))])
  }

  /** The keyword rule on the lower-cased question. */
  predicate WantsHistogram(userQ: string)
  {
    var q := Lower(userQ);
    Contains(q, "hist") || Contains(q, "distribui") || Contains(q, "distribuição")
  }

  /** The third keyword adds nothing: any text containing it also contains the second. */
  lemma HistogramKeywords(userQ: string)
    ensures WantsHistogram(userQ) <==> Contains(Lower(userQ), "hist") || Contains(Lower(userQ), "distribui")
  {
    if Contains(Lower(userQ), "distribuição") {
      assert "distribuição" == "distribui" + "ção";
      ContainsPrefixOf(Lower(userQ), "distribui", "ção");
    }
  }

  /** Upper-case letters count: "Show a Histogram" asks for one. */
  lemma HistogramExample()
    ensures WantsHistogram("Show a Histogram")
  {
    var q := Lower("Show a Histogram");
    assert q[7..11] == "hist";
    assert OccursAt(q, "hist", 7);
    ContainsIffOccurs(q, "hist");
  }

  predicate HasColumn(t: Table, name: string)
  {
    exists i :: 0 <= i < |t.columns| && t.columns[i].name == name
  }

  /** The histogram column: "Amount" if the table has it, else the first numeric column; `None`
      where `numeric_cols[0]` raises because there is none. */
  function HistogramColumn(t: Table): (r: Option<string>)
    ensures HasColumn(t, "Amount") ==> r == Some("Amount")
    ensures r.None? <==> !HasColumn(t, "Amount") && forall c :: c in t.columns ==> !IsNumeric(c)
    ensures r.Some? && r.value != "Amount" ==>
              exists i :: 0 <= i < |t.columns| && t.columns[i].name == r.value && IsNumeric(t.columns[i])
                          && forall j :: 0 <= j < i ==> !IsNumeric(t.columns[j])
  {
    if HasColumn(t, "Amount") then Some("Amount")
    else
      var names := NumericNames(t);
      FirstNumeric(t.columns);
      if |names| == 0 then None else Some(names[0])
  }

  /** The first numeric column is the head of the numeric columns. */
  lemma {:induction false} FirstNumeric(cols: seq<Column>)
    ensures |NumericColumns(cols)| == 0 <==> forall c :: c in cols ==> !IsNumeric(c)
    ensures |NumericColumns(cols)| > 0 ==>
              exists i :: 0 <= i < |cols| && cols[i] == NumericColumns(cols)[0]
                          && IsNumeric(cols[i]) && forall j :: 0 <= j < i ==> !IsNumeric(cols[j])
  {
    if cols != [] {
      FirstNumeric(cols[1..]);
      if !IsNumeric(cols[0]) && |NumericColumns(cols[1..])| > 0 {
        var i :| 0 <= i < |cols[1..]| && cols[1..][i] == NumericColumns(cols[1..])[0]
                 && IsNumeric(cols[1..][i]) && forall j :: 0 <= j < i ==> !IsNumeric(cols[1..][j]);
        FirstNumericSkip(cols, i);
      }
    }
  }

  /** A non-numeric column in front moves the first numeric column one place along. */
  lemma FirstNumericSkip(cols: seq<Column>, i: nat)
    requires |cols| > 0 && !IsNumeric(cols[0]) && i < |cols| - 1
    requires IsNumeric(cols[1..][i]) && forall j :: 0 <= j < i ==> !IsNumeric(cols[1..][j])
    ensures IsNumeric(cols[i + 1]) && forall j :: 0 <= j < i + 1 ==> !IsNumeric(cols[j])
    ensures NumericColumns(cols) == NumericColumns(cols[1..])
  {
    forall j | 0 <= j < i + 1
      ensures !IsNumeric(cols[j])
    {
      if j > 0 {
        assert cols[j] == cols[1..][j - 1];
      }
    }
  }

  // ---------------------------------------------------------------------
  // The question pipeline
  // ---------------------------------------------------------------------

  /** Whether the question asks for a histogram, and if so the column chosen (`None` inside when
      there is no column to choose). */
  function HistogramRequest(t: Table, userQ: string): (r: Option<Option<string>>)
    ensures r.Some? <==> WantsHistogram(userQ)
    ensures r.Some? ==> r.value == HistogramColumn(t)
  {
    if WantsHistogram(userQ) then Some(HistogramColumn(t)) else None
  }

  /** The prompt for a question about `t` with the remembered interactions `memory`. */
  function QuestionPrompt(t: Table, userQ: string, memory: seq<Interaction>): string
  {
    Prompt(userQ, (t.rows, |t.columns|), TopCols(t), MemoryText(memory))
  }

  /** The answer shown for a question: the model's text, or the error answer when the call fails. */
  function QuestionAnswer(t: Table, userQ: string, memory: seq<Interaction>, cfg: Config,
                          send: Request -> Result<Reply, string>): (answer: string)
    ensures var r := CallGemini(cfg, QuestionPrompt(t, userQ, memory), 600, 0.0, send);
            && (r.Ok? ==> answer == r.value)
            && (r.Err? ==> StartsWith(answer, ErrorPrefix) && answer[|ErrorPrefix|..] == r.error.message)
    ensures cfg.apiKey == "" ==> answer == ErrorPrefix + MissingKeyMessage
  {
    LlmAnswer(CallGemini(cfg, QuestionPrompt(t, userQ, memory), 600, 0.0, send))
  }

  /** The first half of a question: create the log if needed, read the last `nContext`
      interactions and ask the model; the log itself is not changed. */
  method Consult(store: InteractionStore, t: Table, userQ: string, nContext: int,
                 cfg: Config, send: Request -> Result<Reply, string>)
    returns (answer: string)
    requires store.Valid()
    modifies store
    ensures store.Valid() && store.tableExists
    ensures store.rows == old(store.rows) && store.lastId == old(store.lastId)
    ensures answer == QuestionAnswer(t, userQ, LastKOf(old(store.rows), nContext), cfg, send)
  {
    store.InitDb();
    var memory := store.LastK(nContext);
    answer := QuestionAnswer(t, userQ, memory.value, cfg, send);
  }

  /** The second half of a question: the answer, whatever it is, is saved with the dataset shape. */
  method Remember(store: InteractionStore, t: Table, userQ: string, answer: string, now: string)
    requires store.Valid() && store.tableExists
    modifies store
    ensures store.Valid() && store.tableExists
    ensures store.rows == old(store.rows) + [Row(old(store.lastId) + 1, now, userQ, answer, StoredMetadata(Some(ShapeMetadata(t))))]
    ensures store.lastId == old(store.lastId) + 1
  {
    var saved := store.SaveInteraction(userQ, answer, Some(ShapeMetadata(t)), now);
  }

  /** "Enviar pergunta": the script first makes sure the log exists, reads the last `nContext`
      interactions, asks the model (600 tokens, temperature 0), turns a failure into the error
      answer and saves exactly one interaction with the dataset shape. Whether a histogram
      follows is `HistogramRequest`, which depends on the question and the table only. */
  method AskQuestion(store: InteractionStore, t: Table, userQ: string, nContext: int,
                     cfg: Config, send: Request -> Result<Reply, string>, now: string)
    returns (answer: string)
    requires store.Valid()
    modifies store
    ensures store.Valid() && store.tableExists
    ensures answer == QuestionAnswer(t, userQ, LastKOf(old(store.rows), nContext), cfg, send)
    ensures |store.rows| == |old(store.rows)| + 1 && store.rows[..|old(store.rows)|] == old(store.rows)
    ensures store.rows[|old(store.rows)|] == Row(old(store.lastId) + 1, now, userQ, answer, StoredMetadata(Some(ShapeMetadata(t))))
    ensures store.lastId == old(store.lastId) + 1
  {
    answer := Consult(store, t, userQ, nContext, cfg, send);
    Remember(store, t, userQ, answer, now);
  }

  /** After a question, the newest remembered interaction is that question with its answer and
      the dataset shape, whether the model answered or failed. */
  lemma AskedThenRemembered(rows: seq<Row>, id: nat, now: string, t: Table, userQ: string, answer: string)
    requires Decodable(rows)
    ensures Decodable(rows + [Row(id, now, userQ, answer, StoredMetadata(Some(ShapeMetadata(t))))])
    ensures LastKOf(rows + [Row(id, now, userQ, answer, StoredMetadata(Some(ShapeMetadata(t))))], 1)
            == [Interaction(now, userQ, answer, ShapeMetadata(t))]
  {
    SaveThenLast(rows, id, now, userQ, answer, Some(ShapeMetadata(t)));
  }
}
