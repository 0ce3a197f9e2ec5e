/** `DocxHandler.process`: the document is a sequence of body paragraphs
    and a list of tables, each a grid of cells holding paragraphs. Every
    non-blank paragraph is replaced by one run with its translation; the
    walk visits the body first, then table, row, cell and paragraph in
    order, and stops at the first translation that raises. */
module Docx {
  import opened Base
  import opened Strings
  import Paths

  /** A paragraph: its paragraph-level style, which `clear()` keeps, and
      the texts of its runs. */
  datatype Paragraph = Paragraph(style: string, runs: seq<string>)
  datatype Cell = Cell(paragraphs: seq<Paragraph>)
  datatype Row = Row(cells: seq<Cell>)
  datatype Table = Table(rows: seq<Row>)
  datatype Document = Document(paragraphs: seq<Paragraph>, tables: seq<Table>)

  /** `client.translate_text(text, lang)`. */
  type Translator = (string, string) -> Result<string>

  /** One request made to the translator. */
  datatype Call = Call(text: string, lang: string)

  /** A walk over part of the document: the rewritten part, or the exception
      that stopped it; either way the requests made, in order. */
  datatype Walk<T> = Done(value: T, calls: seq<Call>) | Aborted(error: Error, calls: seq<Call>)

  function Concat(runs: seq<string>): string {
    if runs == [] then [] else runs[0] + Concat(runs[1..])
  }

  /** `para.text`: the texts of the runs, joined. */
  function Text(p: Paragraph): string {
    Concat(p.runs)
  }

  /** `para.clear()` then `para.add_run(t)`: the style stays and the
      paragraph's text becomes exactly `t`, in a single run. */
  function Retext(p: Paragraph, t: string): (q: Paragraph)
    ensures q.style == p.style && |q.runs| == 1 && Text(q) == t
  {
    assert [t][1..] == [];
    assert Concat([t]) == t + Concat([]);
    Paragraph(p.style, [t])
  }

  // ---------------------------------------------------------------------
  // The reference: what the handler owes, stated without the walk.

  /** The call one paragraph makes: none when it is blank. */
  function Request(p: Paragraph, lang: string): seq<Call> {
    if IsBlank(Text(p)) then [] else [Call(Text(p), lang)]
  }

  /** The requests owed for `ps`, in order: one per non-blank paragraph. */
  function Requests(ps: seq<Paragraph>, lang: string): (r: seq<Call>)
    ensures |r| <= |ps|
  {
    if ps == [] then [] else Request(ps[0], lang) + Requests(ps[1..], lang)
  }

  /** Every request carries the handler's language and a non-blank text:
      blank paragraphs are never sent. */
  lemma {:induction false} RequestsAreNonBlank(ps: seq<Paragraph>, lang: string)
    ensures forall i :: 0 <= i < |Requests(ps, lang)| ==>
              Requests(ps, lang)[i].lang == lang && !IsBlank(Requests(ps, lang)[i].text)
    decreases |ps|
  {
    if ps != [] {
      RequestsAreNonBlank(ps[1..], lang);
    }
  }

  lemma {:induction false} RequestsAppend(a: seq<Paragraph>, b: seq<Paragraph>, lang: string)
    ensures Requests(a + b, lang) == Requests(a, lang) + Requests(b, lang)
    decreases |a|
  {
    if a == [] {
      assert a + b == b;
    } else {
      var head := Request(a[0], lang);
      assert (a + b)[1..] == a[1..] + b;
      assert Requests(a + b, lang) == head + Requests(a[1..] + b, lang);
      RequestsAppend(a[1..], b, lang);
      assert head + (Requests(a[1..], lang) + Requests(b, lang)) == (head + Requests(a[1..], lang)) + Requests(b, lang);
    }
  }

  function BlankCount(ps: seq<Paragraph>): nat {
    if ps == [] then 0 else (if IsBlank(Text(ps[0])) then 1 else 0) + BlankCount(ps[1..])
  }

  /** Exactly one request per non-blank paragraph. */
  lemma {:induction false} OneRequestPerParagraph(ps: seq<Paragraph>, lang: string)
    ensures |Requests(ps, lang)| == |ps| - BlankCount(ps)
    decreases |ps|
  {
    if ps != [] {
      OneRequestPerParagraph(ps[1..], lang);
    }
  }

  predicate Answers(c: Call, tr: Translator) {
    tr(c.text, c.lang).Ok?
  }

  /** The walk made the requests `req` in order and stopped at the first
      one that raised: all of them if every one answered; otherwise a
      prefix of them whose last request raised the walk's exception. */
  predicate StopsAtFirstFailure<T>(w: Walk<T>, req: seq<Call>, tr: Translator) {
    match w
    case Done(_, calls) =>
      calls == req && forall i :: 0 <= i < |req| ==> Answers(req[i], tr)
    case Aborted(e, calls) =>
      && 0 < |calls| <= |req|
      && calls == req[..|calls|]
      && (forall i :: 0 <= i < |calls| - 1 ==> Answers(calls[i], tr))
      && tr(calls[|calls| - 1].text, calls[|calls| - 1].lang) == Raised(e)
  }

  /** A walk that stops at the first failure completes exactly when every
      request it owes is answered. */
  lemma DoneIffAllAnswered<T>(w: Walk<T>, req: seq<Call>, tr: Translator)
    requires StopsAtFirstFailure(w, req, tr)
    ensures w.Done? <==> forall i :: 0 <= i < |req| ==> Answers(req[i], tr)
  {
    if w.Aborted? {
      var k := |w.calls| - 1;
      assert w.calls[k] == req[k];
    }
  }

  /** What one paragraph becomes: blank ones are left as they are, the
      others carry their translation (when it is answered). */
  function Translated(p: Paragraph, lang: string, tr: Translator): Paragraph {
    if IsBlank(Text(p)) then p
    else match tr(Text(p), lang)
      case Ok(t) => Retext(p, t)
      case Raised(_) => p
  }

  function TranslatedParagraphs(ps: seq<Paragraph>, lang: string, tr: Translator): seq<Paragraph> {
    seq(|ps|, i requires 0 <= i < |ps| => Translated(ps[i], lang, tr))
  }

  lemma TranslatedParagraphsSplit(ps: seq<Paragraph>, lang: string, tr: Translator)
    ensures ps == [] ==> TranslatedParagraphs(ps, lang, tr) == []
    ensures ps != [] ==> TranslatedParagraphs(ps, lang, tr) == [Translated(ps[0], lang, tr)] + TranslatedParagraphs(ps[1..], lang, tr)
  {
    if ps != [] {
      assert [Translated(ps[0], lang, tr)] + TranslatedParagraphs(ps[1..], lang, tr) == TranslatedParagraphs(ps, lang, tr);
    }
  }

  /** The paragraph count is kept; blank paragraphs are left exactly as they
      were; every answered paragraph keeps its style and becomes one run
      holding its translation. */
  lemma TranslatedShape(ps: seq<Paragraph>, lang: string, tr: Translator)
    ensures |TranslatedParagraphs(ps, lang, tr)| == |ps|
    ensures forall i :: 0 <= i < |ps| && IsBlank(Text(ps[i])) ==> TranslatedParagraphs(ps, lang, tr)[i] == ps[i]
    ensures forall i :: 0 <= i < |ps| && !IsBlank(Text(ps[i])) && tr(Text(ps[i]), lang).Ok? ==>
              var q := TranslatedParagraphs(ps, lang, tr)[i];
              q.style == ps[i].style && q.runs == [tr(Text(ps[i]), lang).value]
  {
  }

  function TranslatedCell(c: Cell, lang: string, tr: Translator): Cell {
    Cell(TranslatedParagraphs(c.paragraphs, lang, tr))
  }

  function TranslatedCells(cs: seq<Cell>, lang: string, tr: Translator): seq<Cell> {
    seq(|cs|, i requires 0 <= i < |cs| => TranslatedCell(cs[i], lang, tr))
  }

  lemma TranslatedCellsSplit(cs: seq<Cell>, lang: string, tr: Translator)
    ensures cs == [] ==> TranslatedCells(cs, lang, tr) == []
    ensures cs != [] ==> TranslatedCells(cs, lang, tr) == [TranslatedCell(cs[0], lang, tr)] + TranslatedCells(cs[1..], lang, tr)
  {
    if cs != [] {
      assert [TranslatedCell(cs[0], lang, tr)] + TranslatedCells(cs[1..], lang, tr) == TranslatedCells(cs, lang, tr);
    }
  }

  function TranslatedRow(r: Row, lang: string, tr: Translator): Row {
    Row(TranslatedCells(r.cells, lang, tr))
  }

  function TranslatedRows(rs: seq<Row>, lang: string, tr: Translator): seq<Row> {
    seq(|rs|, i requires 0 <= i < |rs| => TranslatedRow(rs[i], lang, tr))
  }

  lemma TranslatedRowsSplit(rs: seq<Row>, lang: string, tr: Translator)
    ensures rs == [] ==> TranslatedRows(rs, lang, tr) == []
    ensures rs != [] ==> TranslatedRows(rs, lang, tr) == [TranslatedRow(rs[0], lang, tr)] + TranslatedRows(rs[1..], lang, tr)
  {
    if rs != [] {
      assert [TranslatedRow(rs[0], lang, tr)] + TranslatedRows(rs[1..], lang, tr) == TranslatedRows(rs, lang, tr);
    }
  }

  function TranslatedTable(t: Table, lang: string, tr: Translator): Table {
    Table(TranslatedRows(t.rows, lang, tr))
  }

  function TranslatedTables(ts: seq<Table>, lang: string, tr: Translator): seq<Table> {
    seq(|ts|, i requires 0 <= i < |ts| => TranslatedTable(ts[i], lang, tr))
  }

  lemma TranslatedTablesSplit(ts: seq<Table>, lang: string, tr: Translator)
    ensures ts == [] ==> TranslatedTables(ts, lang, tr) == []
    ensures ts != [] ==> TranslatedTables(ts, lang, tr) == [TranslatedTable(ts[0], lang, tr)] + TranslatedTables(ts[1..], lang, tr)
  {
    if ts != [] {
      assert [TranslatedTable(ts[0], lang, tr)] + TranslatedTables(ts[1..], lang, tr) == TranslatedTables(ts, lang, tr);
    }
  }

  /** The document with every paragraph, in the body and in every cell,
      replaced in place by what it becomes. */
  function TranslatedDocument(d: Document, lang: string, tr: Translator): Document {
    Document(TranslatedParagraphs(d.paragraphs, lang, tr), TranslatedTables(d.tables, lang, tr))
  }

  /** The paragraphs in the order the handler visits them: the body, then
      each table's rows top to bottom, cells left to right. */
  function CellsParagraphs(cs: seq<Cell>): seq<Paragraph> {
    if cs == [] then [] else cs[0].paragraphs + CellsParagraphs(cs[1..])
  }

  function RowsParagraphs(rs: seq<Row>): seq<Paragraph> {
    if rs == [] then [] else CellsParagraphs(rs[0].cells) + RowsParagraphs(rs[1..])
  }

  function TablesParagraphs(ts: seq<Table>): seq<Paragraph> {
    if ts == [] then [] else RowsParagraphs(ts[0].rows) + TablesParagraphs(ts[1..])
  }

  function VisitOrder(d: Document): seq<Paragraph> {
    d.paragraphs + TablesParagraphs(d.tables)
  }

  // ---------------------------------------------------------------------
  // The walk, following the handler's loops.

  /** Run `first`; unless it raised, run `second`; combine the results. */
  function Join<A, B, C>(first: Walk<A>, second: Walk<B>, combine: (A, B) -> C): (w: Walk<C>)
    ensures w.Done? <==> first.Done? && second.Done?
    ensures w.Done? ==> w.value == combine(first.value, second.value)
  {
    match first
    case Aborted(e, c) => Aborted(e, c)
    case Done(a, c1) =>
      match second
      case Aborted(e, c2) => Aborted(e, c1 + c2)
      case Done(b, c2) => Done(combine(a, b), c1 + c2)
  }

  /** Two walks in sequence stop at the first failure of their requests
      in sequence. */
  lemma JoinStops<A, B, C>(first: Walk<A>, second: Walk<B>, combine: (A, B) -> C,
                           r1: seq<Call>, r2: seq<Call>, tr: Translator)
    requires StopsAtFirstFailure(first, r1, tr)
    requires StopsAtFirstFailure(second, r2, tr)
    ensures StopsAtFirstFailure(Join(first, second, combine), r1 + r2, tr)
  {
    var w := Join(first, second, combine);
    if first.Done? && second.Aborted? {
      var c1, c2 := first.calls, second.calls;
      assert w.calls == c1 + c2;
      assert (r1 + r2)[..|c1 + c2|] == r1 + r2[..|c2|];
      forall i | 0 <= i < |c1 + c2| - 1
        ensures Answers((c1 + c2)[i], tr)
      {
        if i >= |c1| {
          assert (c1 + c2)[i] == c2[i - |c1|];
        }
      }
    } else if first.Aborted? {
      assert (r1 + r2)[..|first.calls|] == r1[..|first.calls|];
    } else {
      forall i | 0 <= i < |r1 + r2|
        ensures Answers((r1 + r2)[i], tr)
      {
        if i >= |r1| {
          assert (r1 + r2)[i] == r2[i - |r1|];
        }
      }
    }
  }

  function Prepend<T>(): (T, seq<T>) -> seq<T> {
    (x: T, xs: seq<T>) => [x] + xs
  }

  /** One element's walk, then the rest's. */
  lemma ConsStops<T>(head: Walk<T>, tail: Walk<seq<T>>, r1: seq<Call>, r2: seq<Call>, tr: Translator)
    requires StopsAtFirstFailure(head, r1, tr)
    requires StopsAtFirstFailure(tail, r2, tr)
    ensures StopsAtFirstFailure(Join(head, tail, Prepend()), r1 + r2, tr)
    ensures Join(head, tail, Prepend()).Done? ==>
              Join(head, tail, Prepend()).value == [head.value] + tail.value
  {
    JoinStops(head, tail, Prepend(), r1, r2, tr);
  }

  /** `w` made the requests `req`, stopping at the first failure, and when
      it completes its result is `expected`. */
  ghost predicate Rewrites<T>(w: Walk<T>, req: seq<Call>, expected: T, tr: Translator) {
    StopsAtFirstFailure(w, req, tr) && (w.Done? ==> w.value == expected)
  }

  /** One `if para.text.strip():` step. */
  function RewriteParagraph(p: Paragraph, lang: string, tr: Translator): (w: Walk<Paragraph>)
    ensures Rewrites(w, Requests([p], lang), Translated(p, lang, tr), tr)
  {
    if IsBlank(Text(p)) then Done(p, [])
    else
      match tr(Text(p), lang)
      case Raised(e) => Aborted(e, [Call(Text(p), lang)])
      case Ok(t) => Done(Retext(p, t), [Call(Text(p), lang)])
  }

  /** `for para in paragraphs:`, over the body or over one cell. */
  function RewriteParagraphs(ps: seq<Paragraph>, lang: string, tr: Translator): Walk<seq<Paragraph>>
    decreases |ps|
  {
    if ps == [] then Done([], [])
    else Join(RewriteParagraph(ps[0], lang, tr), RewriteParagraphs(ps[1..], lang, tr), Prepend())
  }

  lemma {:induction false} RewriteParagraphsSpec(ps: seq<Paragraph>, lang: string, tr: Translator)
    ensures Rewrites(RewriteParagraphs(ps, lang, tr), Requests(ps, lang), TranslatedParagraphs(ps, lang, tr), tr)
    decreases |ps|
  {
    if ps != [] {
      var head := RewriteParagraph(ps[0], lang, tr);
      var tail := RewriteParagraphs(ps[1..], lang, tr);
      RewriteParagraphsSpec(ps[1..], lang, tr);
      ConsStops(head, tail, Requests([ps[0]], lang), Requests(ps[1..], lang), tr);
      assert [ps[0]] + ps[1..] == ps;
      RequestsAppend([ps[0]], ps[1..], lang);
      TranslatedParagraphsSplit(ps, lang, tr);
    } else {
      TranslatedParagraphsSplit(ps, lang, tr);
    }
  }

  function RewriteCell(c: Cell, lang: string, tr: Translator): Walk<Cell> {
    match RewriteParagraphs(c.paragraphs, lang, tr)
    case Aborted(e, calls) => Aborted(e, calls)
    case Done(ps, calls) => Done(Cell(ps), calls)
  }

  lemma RewriteCellSpec(c: Cell, lang: string, tr: Translator)
    ensures Rewrites(RewriteCell(c, lang, tr), Requests(c.paragraphs, lang), TranslatedCell(c, lang, tr), tr)
  {
    RewriteParagraphsSpec(c.paragraphs, lang, tr);
  }

  /** `for cell in row.cells:` */
  function RewriteCells(cs: seq<Cell>, lang: string, tr: Translator): Walk<seq<Cell>>
    decreases |cs|
  {
    if cs == [] then Done([], [])
    else Join(RewriteCell(cs[0], lang, tr), RewriteCells(cs[1..], lang, tr), Prepend())
  }

  lemma {:induction false} RewriteCellsSpec(cs: seq<Cell>, lang: string, tr: Translator)
    ensures Rewrites(RewriteCells(cs, lang, tr), Requests(CellsParagraphs(cs), lang), TranslatedCells(cs, lang, tr), tr)
    decreases |cs|
  {
    if cs != [] {
      var head := RewriteCell(cs[0], lang, tr);
      var tail := RewriteCells(cs[1..], lang, tr);
      RewriteCellSpec(cs[0], lang, tr);
      RewriteCellsSpec(cs[1..], lang, tr);
      ConsStops(head, tail, Requests(cs[0].paragraphs, lang), Requests(CellsParagraphs(cs[1..]), lang), tr);
      RequestsAppend(cs[0].paragraphs, CellsParagraphs(cs[1..]), lang);
      TranslatedCellsSplit(cs, lang, tr);
    } else {
      TranslatedCellsSplit(cs, lang, tr);
    }
  }

  function RewriteRow(r: Row, lang: string, tr: Translator): Walk<Row> {
    match RewriteCells(r.cells, lang, tr)
    case Aborted(e, calls) => Aborted(e, calls)
    case Done(cs, calls) => Done(Row(cs), calls)
  }

  lemma RewriteRowSpec(r: Row, lang: string, tr: Translator)
    ensures Rewrites(RewriteRow(r, lang, tr), Requests(CellsParagraphs(r.cells), lang), TranslatedRow(r, lang, tr), tr)
  {
    RewriteCellsSpec(r.cells, lang, tr);
  }

  /** `for row in table.rows:` */
  function RewriteRows(rs: seq<Row>, lang: string, tr: Translator): Walk<seq<Row>>
    decreases |rs|
  {
    if rs == [] then Done([], [])
    else Join(RewriteRow(rs[0], lang, tr), RewriteRows(rs[1..], lang, tr), Prepend())
  }

  lemma {:induction false} RewriteRowsSpec(rs: seq<Row>, lang: string, tr: Translator)
    ensures Rewrites(RewriteRows(rs, lang, tr), Requests(RowsParagraphs(rs), lang), TranslatedRows(rs, lang, tr), tr)
    decreases |rs|
  {
    if rs != [] {
      var head := RewriteRow(rs[0], lang, tr);
      var tail := RewriteRows(rs[1..], lang, tr);
      RewriteRowSpec(rs[0], lang, tr);
      RewriteRowsSpec(rs[1..], lang, tr);
      ConsStops(head, tail, Requests(CellsParagraphs(rs[0].cells), lang), Requests(RowsParagraphs(rs[1..]), lang), tr);
      RequestsAppend(CellsParagraphs(rs[0].cells), RowsParagraphs(rs[1..]), lang);
      TranslatedRowsSplit(rs, lang, tr);
    } else {
      TranslatedRowsSplit(rs, lang, tr);
    }
  }

  function RewriteTable(t: Table, lang: string, tr: Translator): Walk<Table> {
    match RewriteRows(t.rows, lang, tr)
    case Aborted(e, calls) => Aborted(e, calls)
    case Done(rs, calls) => Done(Table(rs), calls)
  }

  lemma RewriteTableSpec(t: Table, lang: string, tr: Translator)
    ensures Rewrites(RewriteTable(t, lang, tr), Requests(RowsParagraphs(t.rows), lang), TranslatedTable(t, lang, tr), tr)
  {
    RewriteRowsSpec(t.rows, lang, tr);
  }

  /** `for table in doc.tables:` */
  function RewriteTables(ts: seq<Table>, lang: string, tr: Translator): Walk<seq<Table>>
    decreases |ts|
  {
    if ts == [] then Done([], [])
    else Join(RewriteTable(ts[0], lang, tr), RewriteTables(ts[1..], lang, tr), Prepend())
  }

  lemma {:induction false} RewriteTablesSpec(ts: seq<Table>, lang: string, tr: Translator)
    ensures Rewrites(RewriteTables(ts, lang, tr), Requests(TablesParagraphs(ts), lang), TranslatedTables(ts, lang, tr), tr)
    decreases |ts|
  {
    if ts != [] {
      var head := RewriteTable(ts[0], lang, tr);
      var tail := RewriteTables(ts[1..], lang, tr);
      RewriteTableSpec(ts[0], lang, tr);
      RewriteTablesSpec(ts[1..], lang, tr);
      ConsStops(head, tail, Requests(RowsParagraphs(ts[0].rows), lang), Requests(TablesParagraphs(ts[1..]), lang), tr);
      RequestsAppend(RowsParagraphs(ts[0].rows), TablesParagraphs(ts[1..]), lang);
      TranslatedTablesSplit(ts, lang, tr);
    } else {
      TranslatedTablesSplit(ts, lang, tr);
    }
  }

  function MakeDocument(): (seq<Paragraph>, seq<Table>) -> Document {
    (ps: seq<Paragraph>, ts: seq<Table>) => Document(ps, ts)
  }

  /** The two loops of `process`: the body paragraphs, then the tables. */
  function RewriteDocument(d: Document, lang: string, tr: Translator): Walk<Document> {
    Join(RewriteParagraphs(d.paragraphs, lang, tr), RewriteTables(d.tables, lang, tr), MakeDocument())
  }

  /** The requests follow the visit order and stop at the first failure; a
      completed walk yields the document with every paragraph replaced in
      place. */
  lemma RewriteDocumentSpec(d: Document, lang: string, tr: Translator)
    ensures Rewrites(RewriteDocument(d, lang, tr), Requests(VisitOrder(d), lang), TranslatedDocument(d, lang, tr), tr)
  {
    var body := RewriteParagraphs(d.paragraphs, lang, tr);
    var tables := RewriteTables(d.tables, lang, tr);
    RewriteParagraphsSpec(d.paragraphs, lang, tr);
    RewriteTablesSpec(d.tables, lang, tr);
    JoinStops(body, tables, MakeDocument(), Requests(d.paragraphs, lang), Requests(TablesParagraphs(d.tables), lang), tr);
    RequestsAppend(d.paragraphs, TablesParagraphs(d.tables), lang);
  }

  // ---------------------------------------------------------------------
  // `process`: output path, load, the two loops, save.

  const OutputSuffix := "_translated.docx"

  /** `f"{os.path.splitext(input_path)[0]}_translated.docx"`. */
  function OutputPath(inputPath: string): string {
    Paths.SplitExt(inputPath).0 + OutputSuffix
  }

  /** The output's extension is `.docx` in lower case, whatever the input's
      was, and its root is the input's root with `_translated` appended. */
  lemma OutputExtension(inputPath: string)
    ensures Paths.SplitExt(OutputPath(inputPath)) == (Paths.SplitExt(inputPath).0 + "_translated", ".docx")
  {
    SuffixedSplit(Paths.SplitExt(inputPath).0);
  }

  lemma SuffixedSplit(root: string)
    ensures Paths.SplitExt(root + OutputSuffix) == (root + "_translated", ".docx")
  {
    Paths.NamedBaseAppend(root, "_translated");
    Paths.SplitExtOf(root + "_translated", "docx");
    assert "_translated" + "." + "docx" == OutputSuffix;
    assert "." + "docx" == ".docx";
    assert (root + "_translated") + "." + "docx" == root + ("_translated" + "." + "docx");
  }

  /** The output path is never the input path: the original is not overwritten. */
  lemma OutputIsNotInput(inputPath: string)
    ensures OutputPath(inputPath) != inputPath
  {
    var (root, ext) := Paths.SplitExt(inputPath);
    Paths.SplitExtSpec(inputPath);
    assert OutputPath(inputPath)[|root|] == '_';
    if ext != [] {
      assert inputPath[|root|] == ext[0] == '.';
    }
  }

  /** The output lands in the input's directory. */
  lemma OutputInSameDirectory(inputPath: string)
    ensures Paths.Directory(OutputPath(inputPath)) == Paths.Directory(inputPath)
  {
    var (root, ext) := Paths.SplitExt(inputPath);
    Paths.SplitExtSpec(inputPath);
    Paths.DirectoryAppend(root, OutputSuffix);
    if ext != [] {
      assert Paths.SplitsAt(inputPath, |root|);
      assert forall j :: 0 <= j < |ext| ==> ext[j] == inputPath[|root| + j];
    }
    Paths.DirectoryAppend(root, ext);
  }

  /** What `process` did: the translate_text requests in order, the document
      handed to `doc.save` (at `OutputPath(inputPath)`) if that was reached,
      and the returned path or the exception raised. */
  datatype Processed = Processed(calls: seq<Call>, saved: Option<Document>, result: Result<string>)

  /** `DocxHandler(client, lang).process(inputPath)`. `loaded` is what
      `Document(input_path)` gives, `saveFailure` what `doc.save` raises. */
  function Process(inputPath: string, lang: string, loaded: Result<Document>, tr: Translator,
                   saveFailure: Option<Error>): Processed
  {
    match loaded
    case Raised(e) => Processed([], None, Raised(e))
    case Ok(d) => Save(inputPath, RewriteDocument(d, lang, tr), saveFailure)
  }

  /** `doc.save(output_path)` once the loops are over; never reached when a
      translation raised. */
  function Save(inputPath: string, w: Walk<Document>, saveFailure: Option<Error>): Processed {
    match w
    case Aborted(e, calls) => Processed(calls, None, Raised(e))
    case Done(translated, calls) =>
      if saveFailure.Some? then Processed(calls, Some(translated), Raised(saveFailure.value))
      else Processed(calls, Some(translated), Ok(OutputPath(inputPath)))
  }

  /** What a handler run owes for the requests `req` and the fully
      translated document `expected`. Save happens once, after every
      translation, and exactly when every request was answered; the saved
      document is `expected`; otherwise the requests made are a prefix of
      `req` cut at the first one that raised, whose exception is what
      `process` raises. */
  predicate Handled(r: Processed, req: seq<Call>, expected: Document, tr: Translator) {
    && (r.saved.Some? <==> forall i :: 0 <= i < |req| ==> Answers(req[i], tr))
    && (r.saved.Some? ==> r.calls == req && r.saved.value == expected)
    && (r.saved.None? ==>
          && 0 < |r.calls| <= |req| && r.calls == req[..|r.calls|]
          && (forall i :: 0 <= i < |r.calls| - 1 ==> Answers(r.calls[i], tr))
          && r.result.Raised?
          && tr(r.calls[|r.calls| - 1].text, r.calls[|r.calls| - 1].lang) == Raised(r.result.error))
  }

  /** A loaded document is handled against the non-blank paragraphs in visit
      order, and what is saved is that document with each paragraph replaced
      in place. */
  lemma ProcessSpec(inputPath: string, lang: string, d: Document, tr: Translator,
                    saveFailure: Option<Error>)
    ensures Handled(Process(inputPath, lang, Ok(d), tr, saveFailure),
                    Requests(VisitOrder(d), lang), TranslatedDocument(d, lang, tr), tr)
  {
    var w := RewriteDocument(d, lang, tr);
    RewriteDocumentSpec(d, lang, tr);
    SaveSpec(inputPath, w, Requests(VisitOrder(d), lang), TranslatedDocument(d, lang, tr), tr, saveFailure);
  }

  /** Saving a walk that stops at the first failure. */
  lemma SaveSpec(inputPath: string, w: Walk<Document>, req: seq<Call>, expected: Document,
                 tr: Translator, saveFailure: Option<Error>)
    requires Rewrites(w, req, expected, tr)
    ensures Handled(Save(inputPath, w, saveFailure), req, expected, tr)
  {
    DoneIffAllAnswered(w, req, tr);
  }

  /** The handler's promise about its outcome: a document that does not load
      is neither translated nor saved; the output path is returned exactly
      when the document was saved without error, and a failing save raises
      its own exception. */
  lemma ProcessOutcome(inputPath: string, lang: string, loaded: Result<Document>, tr: Translator,
                       saveFailure: Option<Error>)
    ensures var r := Process(inputPath, lang, loaded, tr, saveFailure);
            loaded.Raised? ==> r == Processed([], None, Raised(loaded.error))
    ensures var r := Process(inputPath, lang, loaded, tr, saveFailure);
            r.result.Ok? <==> r.saved.Some? && saveFailure.None?
    ensures var r := Process(inputPath, lang, loaded, tr, saveFailure);
            r.result.Ok? ==> r.result.value == OutputPath(inputPath)
    // a failing `doc.save` propagates its own exception
    ensures var r := Process(inputPath, lang, loaded, tr, saveFailure);
            r.saved.Some? && saveFailure.Some? ==> r.result == Raised(saveFailure.value)
  {
  }

  /** All body paragraphs are requested before any table paragraph. */
  lemma BodyBeforeTables(d: Document, lang: string, tr: Translator)
    requires RewriteDocument(d, lang, tr).Done?
    ensures RewriteDocument(d, lang, tr).calls
            == Requests(d.paragraphs, lang) + Requests(TablesParagraphs(d.tables), lang)
  {
    RewriteDocumentSpec(d, lang, tr);
    RequestsAppend(d.paragraphs, TablesParagraphs(d.tables), lang);
  }

  lemma CellsPair(a: Cell, b: Cell)
    ensures CellsParagraphs([a, b]) == a.paragraphs + b.paragraphs
  {
    assert [a, b][1..] == [b];
    assert [b][1..] == [];
    assert CellsParagraphs([b]) == b.paragraphs + [];
  }

  /** A 2 x 2 table is visited (row 0, col 0), (0, 1), (1, 0), (1, 1). */
  lemma TableVisitOrder(c00: Cell, c01: Cell, c10: Cell, c11: Cell)
    ensures TablesParagraphs([Table([Row([c00, c01]), Row([c10, c11])])])
            == c00.paragraphs + c01.paragraphs + c10.paragraphs + c11.paragraphs
  {
    var r0, r1 := Row([c00, c01]), Row([c10, c11]);
    CellsPair(c00, c01);
    CellsPair(c10, c11);
    var t := Table([r0, r1]);
    assert t.rows[1..] == [r1];
    assert [r1][1..] == [];
    assert RowsParagraphs([r1]) == CellsParagraphs(r1.cells) + [];
    assert [t][1..] == [];
    assert TablesParagraphs([t]) == RowsParagraphs(t.rows) + [];
  }
}
