/**
 What csv_parse (CDNSimulator/libCacheSim/traceReader/libcsv.c) makes of a text, said by a grammar of rows
 and cells and not by the parser's states.
 */
module CsvDocument {
  import opened Bytes
  import opened Csv

  // ---------------------------------------------------------------------------
  // Characters
  // ---------------------------------------------------------------------------

  /** A space that is not the delimiter. */
  predicate Blank(cfg: Config, c: Byte) {
    cfg.isSpace(c) && c != cfg.delim
  }

  /** The delimiter or a row terminator. */
  predicate Ends(cfg: Config, c: Byte) {
    c == cfg.delim || cfg.isTerm(c)
  }

  /** Quote, delimiter, terminators and spaces do not overlap, but for a delimiter that is a space. */
  ghost predicate Proper(cfg: Config) {
    && cfg.quote != cfg.delim && !cfg.isTerm(cfg.quote) && !cfg.isTerm(cfg.delim) && !cfg.isSpace(cfg.quote)
    && forall c: Byte :: cfg.isTerm(c) ==> !cfg.isSpace(c)
  }

  ghost predicate Blanks(cfg: Config, s: seq<Byte>) {
    forall i :: 0 <= i < |s| ==> Blank(cfg, s[i])
  }

  /** Neither a blank nor an end nor a quote. */
  ghost predicate Ordinary(cfg: Config, c: Byte) {
    !Blank(cfg, c) && !Ends(cfg, c) && c != cfg.quote
  }

  /** s without its leading blanks. */
  ghost function LeftTrimmed(cfg: Config, s: seq<Byte>): (r: seq<Byte>)
    ensures r == [] || !Blank(cfg, r[0])
  {
    if s == [] || !Blank(cfg, s[0]) then s else LeftTrimmed(cfg, s[1..])
  }

  /** s without its trailing blanks. */
  ghost function RightTrimmed(cfg: Config, s: seq<Byte>): (r: seq<Byte>)
    ensures r <= s && Blanks(cfg, s[|r|..]) && (r == [] || !Blank(cfg, r[|r| - 1]))
  {
    if s == [] || !Blank(cfg, s[|s| - 1]) then s else RightTrimmed(cfg, s[..|s| - 1])
  }

  ghost function Trimmed(cfg: Config, s: seq<Byte>): seq<Byte> {
    RightTrimmed(cfg, LeftTrimmed(cfg, s))
  }

  // ---------------------------------------------------------------------------
  // Cells, rows and documents
  // ---------------------------------------------------------------------------

  /** A piece of a quoted cell. Doubled is two quotes; Stray a quote, blanks and an ordinary character; Gap a
      quote and blanks, at least one, before another quote. */
  datatype Token = Plain(c: Byte) | Doubled | Stray(blanks: seq<Byte>, c: Byte) | Gap(blanks: seq<Byte>)

  datatype Cell = Bare(text: seq<Byte>) | Enclosed(before: seq<Byte>, tokens: seq<Token>, after: seq<Byte>)

  /** A row and the character that ends it. */
  datatype Line = Line(cells: seq<Cell>, end: Byte)

  ghost function TokenText(cfg: Config, k: Token): seq<Byte> {
    match k
    case Plain(c) => [c]
    case Doubled => [cfg.quote, cfg.quote]
    case Stray(blanks, c) => [cfg.quote] + blanks + [c]
    case Gap(blanks) => [cfg.quote] + blanks
  }

  /** What the piece contributes to the field: two quotes become one and all else stays. */
  ghost function TokenValue(cfg: Config, k: Token): seq<Byte> {
    if k.Doubled? then [cfg.quote] else TokenText(cfg, k)
  }

  ghost function TokensText(cfg: Config, ks: seq<Token>): seq<Byte> {
    if ks == [] then [] else TokensText(cfg, ks[..|ks| - 1]) + TokenText(cfg, ks[|ks| - 1])
  }

  ghost function Value(cfg: Config, ks: seq<Token>): seq<Byte> {
    if ks == [] then [] else Value(cfg, ks[..|ks| - 1]) + TokenValue(cfg, ks[|ks| - 1])
  }

  /** A quote that is neither doubled nor the closing one is an error in strict mode. */
  ghost predicate TokenOk(cfg: Config, k: Token) {
    match k
    case Plain(c) => c != cfg.quote
    case Doubled => true
    case Stray(blanks, c) => !cfg.options.strict && Blanks(cfg, blanks) && Ordinary(cfg, c)
    case Gap(blanks) => !cfg.options.strict && blanks != [] && Blanks(cfg, blanks)
  }

  /** What follows a gap begins with a quote. */
  ghost predicate TokensOk(cfg: Config, ks: seq<Token>) {
    ks == [] ||
    (TokensOk(cfg, ks[..|ks| - 1]) && TokenOk(cfg, ks[|ks| - 1]) &&
     (|ks| > 1 && ks[|ks| - 2].Gap? ==> !ks[|ks| - 1].Plain?))
  }

  /** A cell without quotes around it has no delimiter or terminator and does not begin with a quote; in strict
      mode it has no quote at all. */
  ghost predicate BareOk(cfg: Config, text: seq<Byte>) {
    && (forall i :: 0 <= i < |text| ==> !Ends(cfg, text[i]))
    && (LeftTrimmed(cfg, text) == [] || LeftTrimmed(cfg, text)[0] != cfg.quote)
    && (cfg.options.strict ==> forall i :: 0 <= i < |text| ==> text[i] != cfg.quote)
  }

  ghost predicate CellOk(cfg: Config, cell: Cell) {
    match cell
    case Bare(text) => BareOk(cfg, text)
    case Enclosed(before, tokens, after) => Blanks(cfg, before) && TokensOk(cfg, tokens) && Blanks(cfg, after)
  }

  ghost function CellText(cfg: Config, cell: Cell): seq<Byte> {
    match cell
    case Bare(text) => text
    case Enclosed(before, tokens, after) => before + [cfg.quote] + TokensText(cfg, tokens) + [cfg.quote] + after
  }

  /** The callback for a cell: without quotes the text without the blanks around it, with quotes what they
      enclose. Only an empty cell without quotes can be NULL. */
  ghost function CellEvent(cfg: Config, cell: Cell): Event {
    match cell
    case Bare(text) =>
      if cfg.options.emptyIsNull && Trimmed(cfg, text) == [] then NullField else Field(Trimmed(cfg, text))
    case Enclosed(_, tokens, _) => Field(Value(cfg, tokens))
  }

  /** Nothing but blanks. */
  ghost predicate Empty(cfg: Config, cell: Cell) {
    cell.Bare? && Blanks(cfg, cell.text)
  }

  ghost predicate LineOk(cfg: Config, line: Line) {
    line.cells != [] && cfg.isTerm(line.end) && forall i :: 0 <= i < |line.cells| ==> CellOk(cfg, line.cells[i])
  }

  /** Cells that are each followed by the delimiter. */
  ghost function CellsText(cfg: Config, cells: seq<Cell>): seq<Byte> {
    if cells == [] then []
    else CellsText(cfg, cells[..|cells| - 1]) + (CellText(cfg, cells[|cells| - 1]) + [cfg.delim])
  }

  ghost function CellEvents(cfg: Config, cells: seq<Cell>): seq<Event> {
    seq(|cells|, i requires 0 <= i < |cells| => CellEvent(cfg, cells[i]))
  }

  ghost function LineText(cfg: Config, line: Line): seq<Byte>
    requires line.cells != []
  {
    var n := |line.cells| - 1;
    CellsText(cfg, line.cells[..n]) + (CellText(cfg, line.cells[n]) + [line.end])
  }

  /** A row without anything in it is reported only on request, and then without a field. */
  ghost function LineEvents(cfg: Config, line: Line): seq<Event>
    requires line.cells != []
  {
    if |line.cells| == 1 && Empty(cfg, line.cells[0]) then
      if cfg.options.repallNl then [Row(line.end)] else []
    else CellEvents(cfg, line.cells) + [Row(line.end)]
  }

  ghost predicate DocumentOk(cfg: Config, lines: seq<Line>) {
    forall i :: 0 <= i < |lines| ==> LineOk(cfg, lines[i])
  }

  ghost function DocumentText(cfg: Config, lines: seq<Line>): seq<Byte>
    requires DocumentOk(cfg, lines)
  {
    if lines == [] then [] else DocumentText(cfg, lines[..|lines| - 1]) + LineText(cfg, lines[|lines| - 1])
  }

  ghost function DocumentEvents(cfg: Config, lines: seq<Line>): seq<Event>
    requires DocumentOk(cfg, lines)
  {
    if lines == [] then [] else DocumentEvents(cfg, lines[..|lines| - 1]) + LineEvents(cfg, lines[|lines| - 1])
  }

  // ---------------------------------------------------------------------------
  // Reading a cell without quotes
  // ---------------------------------------------------------------------------

  lemma {:induction false} LeftTrimmedPush(cfg: Config, s: seq<Byte>, c: Byte)
    ensures LeftTrimmed(cfg, s + [c]) ==
            if LeftTrimmed(cfg, s) != [] then LeftTrimmed(cfg, s) + [c] else if Blank(cfg, c) then [] else [c]
    decreases |s|
  {
    if s != [] && Blank(cfg, s[0]) {
      LeftTrimmedPush(cfg, s[1..], c);
      assert (s + [c])[1..] == s[1..] + [c];
    }
    if s == [] {
      assert [c][1..] == [];
    }
  }

  ghost function Trailing(cfg: Config, s: seq<Byte>): nat {
    |s| - |RightTrimmed(cfg, s)|
  }

  lemma TrailingPush(cfg: Config, s: seq<Byte>, c: Byte)
    ensures Trailing(cfg, s + [c]) == if Blank(cfg, c) then Trailing(cfg, s) + 1 else 0
  {
    assert (s + [c])[..|s|] == s;
  }

  /** The parser's state after some of a cell without quotes. */
  ghost function BareState(cfg: Config, st: State, text: seq<Byte>): State {
    var entry := LeftTrimmed(cfg, text);
    if entry == [] then st else State(FieldBegun, false, Trailing(cfg, entry), entry)
  }

  lemma BareBegins(cfg: Config, st: State, c: Byte)
    requires Proper(cfg) && AtFieldStart(st) && !Ends(cfg, c) && c != cfg.quote
    ensures Sound(st) && Step(cfg, st, c) == Ok(if Blank(cfg, c) then st else State(FieldBegun, false, 0, [c]), [])
  {
    assert [] + [c] == [c];
  }

  lemma BareContinues(cfg: Config, spaces: nat, entry: seq<Byte>, c: Byte)
    requires Proper(cfg) && spaces <= |entry| && !Ends(cfg, c) && (cfg.options.strict ==> c != cfg.quote)
    ensures var st := State(FieldBegun, false, spaces, entry);
            Sound(st) && Step(cfg, st, c) == Ok(State(FieldBegun, false, if Blank(cfg, c) then spaces + 1 else 0, entry + [c]), [])
  {
  }

  lemma BareStep(cfg: Config, st: State, text: seq<Byte>, c: Byte)
    requires Proper(cfg) && AtFieldStart(st) && BareOk(cfg, text + [c])
    ensures Sound(BareState(cfg, st, text))
    ensures Step(cfg, BareState(cfg, st, text), c) == Ok(BareState(cfg, st, text + [c]), [])
  {
    var entry := LeftTrimmed(cfg, text);
    LeftTrimmedPush(cfg, text, c);
    assert (text + [c])[|text|] == c;
    if entry == [] {
      BareBegins(cfg, st, c);
      TrailingPush(cfg, [], c);
      assert [] + [c] == [c];
    } else {
      TrailingPush(cfg, entry, c);
      BareContinues(cfg, Trailing(cfg, entry), entry, c);
    }
  }

  lemma BarePrefix(cfg: Config, text: seq<Byte>, c: Byte)
    requires BareOk(cfg, text + [c])
    ensures BareOk(cfg, text)
  {
    LeftTrimmedPush(cfg, text, c);
    assert forall i :: 0 <= i < |text| ==> (text + [c])[i] == text[i];
  }

  lemma {:induction false} RunBare(cfg: Config, st: State, text: seq<Byte>)
    requires Proper(cfg) && AtFieldStart(st) && BareOk(cfg, text)
    ensures Run(cfg, st, text) == Ok(BareState(cfg, st, text), [])
    decreases |text|
  {
    if text != [] {
      var n := |text| - 1;
      assert text == text[..n] + [text[n]];
      BarePrefix(cfg, text[..n], text[n]);
      RunBare(cfg, st, text[..n]);
      BareStep(cfg, st, text[..n], text[n]);
    }
  }

  // ---------------------------------------------------------------------------
  // Reading a quoted cell
  // ---------------------------------------------------------------------------

  ghost predicate GapLast(ks: seq<Token>) {
    ks != [] && ks[|ks| - 1].Gap?
  }

  /** The parser's state after some pieces of a quoted cell. */
  ghost function TokensState(cfg: Config, ks: seq<Token>): State {
    if GapLast(ks) then State(MightHaveEnded, true, |ks[|ks| - 1].blanks|, Value(cfg, ks))
    else State(FieldBegun, true, 0, Value(cfg, ks))
  }

  /** The state after a quote and blanks. */
  ghost function Pending(cfg: Config, v: seq<Byte>, blanks: seq<Byte>): State {
    State(MightHaveEnded, true, |blanks|, v + [cfg.quote] + blanks)
  }

  lemma {:induction false} RunBlanks(cfg: Config, v: seq<Byte>, blanks: seq<Byte>)
    requires Proper(cfg) && Blanks(cfg, blanks)
    ensures Run(cfg, Pending(cfg, v, []), blanks) == Ok(Pending(cfg, v, blanks), [])
    decreases |blanks|
  {
    if blanks != [] {
      var n := |blanks| - 1;
      assert blanks == blanks[..n] + [blanks[n]];
      RunBlanks(cfg, v, blanks[..n]);
      assert v + [cfg.quote] + blanks[..n] + [blanks[n]] == v + [cfg.quote] + blanks;
    }
  }

  /** A quote, wherever in a quoted cell, may be the closing one. */
  lemma QuoteStep(cfg: Config, ks: seq<Token>)
    requires Proper(cfg) && TokensOk(cfg, ks)
    ensures Sound(TokensState(cfg, ks)) && Run(cfg, TokensState(cfg, ks), [cfg.quote]) == Ok(Pending(cfg, Value(cfg, ks), []), [])
  {
    if GapLast(ks) {
      assert |Value(cfg, ks)| >= |ks[|ks| - 1].blanks| + 1;
    }
    RunStart(cfg, TokensState(cfg, ks), cfg.quote);
    assert Value(cfg, ks) + [cfg.quote] + [] == Value(cfg, ks) + [cfg.quote];
  }

  lemma QuoteAndBlanks(cfg: Config, ks: seq<Token>, blanks: seq<Byte>)
    requires Proper(cfg) && TokensOk(cfg, ks) && Blanks(cfg, blanks)
    ensures Sound(TokensState(cfg, ks))
    ensures Run(cfg, TokensState(cfg, ks), [cfg.quote] + blanks) == Ok(Pending(cfg, Value(cfg, ks), blanks), [])
  {
    QuoteStep(cfg, ks);
    RunBlanks(cfg, Value(cfg, ks), blanks);
    SplitInput(cfg, TokensState(cfg, ks), [cfg.quote], blanks);
  }

  lemma ValuePush(cfg: Config, ks: seq<Token>, k: Token)
    ensures Value(cfg, ks + [k]) == Value(cfg, ks) + TokenValue(cfg, k)
    ensures TokensText(cfg, ks + [k]) == TokensText(cfg, ks) + TokenText(cfg, k)
  {
    assert (ks + [k])[..|ks|] == ks;
  }

  /** Reading a after which b is read. */
  lemma Continue(cfg: Config, st: State, a: seq<Byte>, mid: State, events: seq<Event>, b: seq<Byte>, end: State, more: seq<Event>)
    requires Sound(st) && Sound(mid) && Run(cfg, st, a) == Ok(mid, events) && Run(cfg, mid, b) == Ok(end, more)
    ensures Run(cfg, st, a + b) == Ok(end, events + more)
  {
    SplitInput(cfg, st, a, b);
  }

  lemma RunPlain(cfg: Config, ks: seq<Token>, c: Byte)
    requires Proper(cfg) && TokensOk(cfg, ks) && c != cfg.quote && !GapLast(ks)
    ensures Run(cfg, TokensState(cfg, ks), [c]) == Ok(TokensState(cfg, ks + [Plain(c)]), [])
  {
    ValuePush(cfg, ks, Plain(c));
    RunStart(cfg, TokensState(cfg, ks), c);
  }

  lemma RunDoubled(cfg: Config, ks: seq<Token>)
    requires Proper(cfg) && TokensOk(cfg, ks)
    ensures Sound(TokensState(cfg, ks))
    ensures Run(cfg, TokensState(cfg, ks), [cfg.quote, cfg.quote]) == Ok(TokensState(cfg, ks + [Doubled]), [])
  {
    QuoteStep(cfg, ks);
    ValuePush(cfg, ks, Doubled);
    var v := Value(cfg, ks);
    assert v + [cfg.quote] + [] == v + [cfg.quote];
    RunStart(cfg, Pending(cfg, v, []), cfg.quote);
    Continue(cfg, TokensState(cfg, ks), [cfg.quote], Pending(cfg, v, []), [], [cfg.quote], TokensState(cfg, ks + [Doubled]), []);
    assert [cfg.quote] + [cfg.quote] == [cfg.quote, cfg.quote];
  }

  lemma StrayStep(cfg: Config, v: seq<Byte>, blanks: seq<Byte>, c: Byte)
    requires Proper(cfg) && !cfg.options.strict && Ordinary(cfg, c)
    ensures Run(cfg, Pending(cfg, v, blanks), [c]) == Ok(State(FieldBegun, true, 0, v + ([cfg.quote] + blanks + [c])), [])
  {
    RunStart(cfg, Pending(cfg, v, blanks), c);
    assert v + [cfg.quote] + blanks + [c] == v + ([cfg.quote] + blanks + [c]);
  }

  lemma RunStray(cfg: Config, ks: seq<Token>, blanks: seq<Byte>, c: Byte)
    requires Proper(cfg) && TokensOk(cfg, ks) && TokenOk(cfg, Stray(blanks, c))
    ensures Sound(TokensState(cfg, ks))
    ensures Run(cfg, TokensState(cfg, ks), [cfg.quote] + blanks + [c]) == Ok(TokensState(cfg, ks + [Stray(blanks, c)]), [])
  {
    QuoteAndBlanks(cfg, ks, blanks);
    ValuePush(cfg, ks, Stray(blanks, c));
    StrayStep(cfg, Value(cfg, ks), blanks, c);
    Continue(cfg, TokensState(cfg, ks), [cfg.quote] + blanks, Pending(cfg, Value(cfg, ks), blanks), [], [c],
             TokensState(cfg, ks + [Stray(blanks, c)]), []);
  }

  lemma RunGap(cfg: Config, ks: seq<Token>, blanks: seq<Byte>)
    requires Proper(cfg) && TokensOk(cfg, ks) && TokenOk(cfg, Gap(blanks))
    ensures Sound(TokensState(cfg, ks))
    ensures Run(cfg, TokensState(cfg, ks), [cfg.quote] + blanks) == Ok(TokensState(cfg, ks + [Gap(blanks)]), [])
  {
    QuoteAndBlanks(cfg, ks, blanks);
    PendingIsGap(cfg, ks, blanks);
  }

  lemma PendingIsGap(cfg: Config, ks: seq<Token>, blanks: seq<Byte>)
    ensures TokensState(cfg, ks + [Gap(blanks)]) == Pending(cfg, Value(cfg, ks), blanks)
  {
    ValuePush(cfg, ks, Gap(blanks));
    var v := Value(cfg, ks);
    assert v + [cfg.quote] + blanks == v + ([cfg.quote] + blanks);
  }

  lemma RunToken(cfg: Config, ks: seq<Token>, k: Token)
    requires Proper(cfg) && TokensOk(cfg, ks) && TokenOk(cfg, k) && (GapLast(ks) ==> !k.Plain?)
    ensures Sound(TokensState(cfg, ks)) && Run(cfg, TokensState(cfg, ks), TokenText(cfg, k)) == Ok(TokensState(cfg, ks + [k]), [])
  {
    QuoteStep(cfg, ks);
    match k
    case Plain(c) => RunPlain(cfg, ks, c);
    case Doubled => RunDoubled(cfg, ks);
    case Stray(blanks, c) => RunStray(cfg, ks, blanks, c);
    case Gap(blanks) => RunGap(cfg, ks, blanks);
  }

  lemma {:induction false} RunTokens(cfg: Config, ks: seq<Token>)
    requires Proper(cfg) && TokensOk(cfg, ks)
    ensures Run(cfg, TokensState(cfg, []), TokensText(cfg, ks)) == Ok(TokensState(cfg, ks), [])
    decreases |ks|
  {
    if ks != [] {
      var n := |ks| - 1;
      RunTokens(cfg, ks[..n]);
      RunToken(cfg, ks[..n], ks[n]);
      assert ks[..n] + [ks[n]] == ks;
      Continue(cfg, TokensState(cfg, []), TokensText(cfg, ks[..n]), TokensState(cfg, ks[..n]), [], TokenText(cfg, ks[n]),
               TokensState(cfg, ks), []);
    }
  }

  lemma BlanksAreBare(cfg: Config, blanks: seq<Byte>)
    requires Proper(cfg) && Blanks(cfg, blanks)
    ensures BareOk(cfg, blanks) && LeftTrimmed(cfg, blanks) == []
  {
    AllBlank(cfg, blanks);
  }

  lemma {:induction false} AllBlank(cfg: Config, s: seq<Byte>)
    ensures LeftTrimmed(cfg, s) == [] <==> Blanks(cfg, s)
  {
    if s != [] {
      AllBlank(cfg, s[1..]);
      assert s == [s[0]] + s[1..];
    }
  }

  lemma RunOpening(cfg: Config, st: State, before: seq<Byte>)
    requires Proper(cfg) && AtFieldStart(st) && Blanks(cfg, before)
    ensures Run(cfg, st, before + [cfg.quote]) == Ok(TokensState(cfg, []), [])
  {
    BlanksAreBare(cfg, before);
    RunBare(cfg, st, before);
    RunOne(cfg, st, before, cfg.quote);
  }

  /** The opening quote and some pieces. */
  lemma RunOpened(cfg: Config, st: State, before: seq<Byte>, ks: seq<Token>)
    requires Proper(cfg) && AtFieldStart(st) && Blanks(cfg, before) && TokensOk(cfg, ks)
    ensures Run(cfg, st, before + [cfg.quote] + TokensText(cfg, ks)) == Ok(TokensState(cfg, ks), [])
  {
    RunOpening(cfg, st, before);
    RunTokens(cfg, ks);
    Continue(cfg, st, before + [cfg.quote], TokensState(cfg, []), [], TokensText(cfg, ks), TokensState(cfg, ks), []);
  }

  /** A quoted cell up to its end. */
  lemma RunEnclosed(cfg: Config, st: State, before: seq<Byte>, ks: seq<Token>, after: seq<Byte>)
    requires Proper(cfg) && AtFieldStart(st) && Blanks(cfg, before) && TokensOk(cfg, ks) && Blanks(cfg, after)
    ensures Run(cfg, st, CellText(cfg, Enclosed(before, ks, after))) == Ok(Pending(cfg, Value(cfg, ks), after), [])
  {
    RunOpened(cfg, st, before, ks);
    QuoteAndBlanks(cfg, ks, after);
    var text := before + [cfg.quote] + TokensText(cfg, ks);
    SplitInput(cfg, st, text, [cfg.quote] + after);
    assert text + ([cfg.quote] + after) == CellText(cfg, Enclosed(before, ks, after));
  }

  // ---------------------------------------------------------------------------
  // Rows and documents
  // ---------------------------------------------------------------------------

  /** The parser's state after a cell. */
  ghost function CellState(cfg: Config, st: State, cell: Cell): State {
    match cell
    case Bare(text) => BareState(cfg, st, text)
    case Enclosed(_, tokens, after) => Pending(cfg, Value(cfg, tokens), after)
  }

  lemma RunCell(cfg: Config, st: State, cell: Cell)
    requires Proper(cfg) && AtFieldStart(st) && CellOk(cfg, cell)
    ensures Run(cfg, st, CellText(cfg, cell)) == Ok(CellState(cfg, st, cell), [])
  {
    match cell
    case Bare(text) => RunBare(cfg, st, text);
    case Enclosed(before, tokens, after) => RunEnclosed(cfg, st, before, tokens, after);
  }

  /** What the parser submits at the end of a cell. */
  lemma CellSubmitted(cfg: Config, st: State, cell: Cell)
    requires Proper(cfg) && AtFieldStart(st) && CellOk(cfg, cell)
    ensures var e := CellState(cfg, st, cell);
            && Sound(e)
            && (e.phase == MightHaveEnded ==> Submitted(cfg, Unquoted(e)) == CellEvent(cfg, cell))
            && (e.phase != MightHaveEnded ==> !e.quoted && Submitted(cfg, e) == CellEvent(cfg, cell))
            && (e.phase == RowNotBegun <==> st.phase == RowNotBegun && Empty(cfg, cell))
  {
    match cell
    case Bare(text) =>
      AllBlank(cfg, text);
      assert RightTrimmed(cfg, []) == [];
    case Enclosed(_, tokens, after) =>
      var v := Value(cfg, tokens);
      assert (v + [cfg.quote] + after)[..|v|] == v;
  }

  ghost function EndState(): State {
    State(FieldNotBegun, false, 0, [])
  }

  lemma RunDelimited(cfg: Config, st: State, cell: Cell)
    requires Proper(cfg) && AtFieldStart(st) && CellOk(cfg, cell)
    ensures Run(cfg, st, CellText(cfg, cell) + [cfg.delim]) == Ok(EndState(), [CellEvent(cfg, cell)])
  {
    RunCell(cfg, st, cell);
    CellSubmitted(cfg, st, cell);
    RunOne(cfg, st, CellText(cfg, cell), cfg.delim);
  }

  lemma RunTerminated(cfg: Config, st: State, cell: Cell, end: Byte)
    requires Proper(cfg) && AtFieldStart(st) && CellOk(cfg, cell) && cfg.isTerm(end)
    ensures Run(cfg, st, CellText(cfg, cell) + [end]) ==
            Ok(Initial, if st.phase == RowNotBegun && Empty(cfg, cell) then if cfg.options.repallNl then [Row(end)] else []
                        else [CellEvent(cfg, cell), Row(end)])
  {
    RunCell(cfg, st, cell);
    CellSubmitted(cfg, st, cell);
    RunOne(cfg, st, CellText(cfg, cell), end);
  }

  /** Where some cells, each followed by the delimiter, leave the parser. */
  ghost function StartState(cells: seq<Cell>): State {
    if cells == [] then Initial else EndState()
  }

  lemma {:induction false} RunCells(cfg: Config, cells: seq<Cell>)
    requires Proper(cfg) && forall i :: 0 <= i < |cells| ==> CellOk(cfg, cells[i])
    ensures Run(cfg, Initial, CellsText(cfg, cells)) == Ok(StartState(cells), CellEvents(cfg, cells))
    decreases |cells|
  {
    if cells != [] {
      var n := |cells| - 1;
      RunCells(cfg, cells[..n]);
      RunDelimited(cfg, StartState(cells[..n]), cells[n]);
      Continue(cfg, Initial, CellsText(cfg, cells[..n]), StartState(cells[..n]), CellEvents(cfg, cells[..n]),
               CellText(cfg, cells[n]) + [cfg.delim], EndState(), [CellEvent(cfg, cells[n])]);
      CellEventsLast(cfg, cells);
    }
  }

  lemma CellEventsLast(cfg: Config, cells: seq<Cell>)
    requires cells != []
    ensures CellEvents(cfg, cells) == CellEvents(cfg, cells[..|cells| - 1]) + [CellEvent(cfg, cells[|cells| - 1])]
  {
  }

  lemma LineEventsAre(cfg: Config, line: Line)
    requires line.cells != []
    ensures var n := |line.cells| - 1; var first := StartState(line.cells[..n]).phase == RowNotBegun;
            LineEvents(cfg, line) == CellEvents(cfg, line.cells[..n]) +
            if first && Empty(cfg, line.cells[n]) then if cfg.options.repallNl then [Row(line.end)] else []
            else [CellEvent(cfg, line.cells[n]), Row(line.end)]
  {
    CellEventsLast(cfg, line.cells);
  }

  lemma RunLine(cfg: Config, line: Line)
    requires Proper(cfg) && LineOk(cfg, line)
    ensures Run(cfg, Initial, LineText(cfg, line)) == Ok(Initial, LineEvents(cfg, line))
  {
    var n := |line.cells| - 1;
    var cells, last := line.cells[..n], line.cells[n];
    RunCells(cfg, cells);
    RunTerminated(cfg, StartState(cells), last, line.end);
    LineEventsAre(cfg, line);
    Continue(cfg, Initial, CellsText(cfg, cells), StartState(cells), CellEvents(cfg, cells), CellText(cfg, last) + [line.end],
             Initial, Run(cfg, StartState(cells), CellText(cfg, last) + [line.end]).events);
  }

  /** Every document is read as its rows and cells, whatever the options. */
  lemma {:induction false} ReadsDocument(cfg: Config, lines: seq<Line>)
    requires Proper(cfg) && DocumentOk(cfg, lines)
    ensures Run(cfg, Initial, DocumentText(cfg, lines)) == Ok(Initial, DocumentEvents(cfg, lines))
    decreases |lines|
  {
    if lines != [] {
      var n := |lines| - 1;
      ReadsDocument(cfg, lines[..n]);
      RunLine(cfg, lines[n]);
      SplitInput(cfg, Initial, DocumentText(cfg, lines[..n]), LineText(cfg, lines[n]));
    }
  }

  // ---------------------------------------------------------------------------
  // Texts that break off
  // ---------------------------------------------------------------------------

  /** The last cell so far: one that may be complete, or one whose closing quote is missing. */
  datatype Rest = Whole(cell: Cell) | Opened(before: seq<Byte>, tokens: seq<Token>)

  /** Rows, cells of the next row that are each followed by the delimiter, and the last cell so far. */
  datatype Draft = Draft(lines: seq<Line>, cells: seq<Cell>, rest: Rest)

  ghost predicate RestOk(cfg: Config, rest: Rest) {
    match rest
    case Whole(cell) => CellOk(cfg, cell)
    case Opened(before, tokens) => Blanks(cfg, before) && TokensOk(cfg, tokens) && !GapLast(tokens)
  }

  ghost predicate DraftOk(cfg: Config, d: Draft) {
    DocumentOk(cfg, d.lines) && (forall i :: 0 <= i < |d.cells| ==> CellOk(cfg, d.cells[i])) && RestOk(cfg, d.rest)
  }

  ghost function RestText(cfg: Config, rest: Rest): seq<Byte> {
    match rest
    case Whole(cell) => CellText(cfg, cell)
    case Opened(before, tokens) => before + [cfg.quote] + TokensText(cfg, tokens)
  }

  ghost function DraftText(cfg: Config, d: Draft): seq<Byte>
    requires DraftOk(cfg, d)
  {
    DocumentText(cfg, d.lines) + (CellsText(cfg, d.cells) + RestText(cfg, d.rest))
  }

  /** The callbacks that have been made: for all rows and cells that have ended. */
  ghost function DraftEvents(cfg: Config, d: Draft): seq<Event>
    requires DraftOk(cfg, d)
  {
    DocumentEvents(cfg, d.lines) + CellEvents(cfg, d.cells)
  }

  ghost function RestState(cfg: Config, st: State, rest: Rest): State {
    match rest
    case Whole(cell) => CellState(cfg, st, cell)
    case Opened(_, tokens) => TokensState(cfg, tokens)
  }

  ghost function DraftState(cfg: Config, d: Draft): State {
    RestState(cfg, StartState(d.cells), d.rest)
  }

  lemma RunRest(cfg: Config, st: State, rest: Rest)
    requires Proper(cfg) && AtFieldStart(st) && RestOk(cfg, rest)
    ensures Sound(RestState(cfg, st, rest)) && Run(cfg, st, RestText(cfg, rest)) == Ok(RestState(cfg, st, rest), [])
  {
    match rest
    case Whole(cell) =>
      RunCell(cfg, st, cell);
      CellSubmitted(cfg, st, cell);
    case Opened(before, tokens) =>
      RunOpened(cfg, st, before, tokens);
      QuoteStep(cfg, tokens);
  }

  lemma RunRow(cfg: Config, cells: seq<Cell>, rest: Rest)
    requires Proper(cfg) && (forall i :: 0 <= i < |cells| ==> CellOk(cfg, cells[i])) && RestOk(cfg, rest)
    ensures Sound(RestState(cfg, StartState(cells), rest))
    ensures Run(cfg, Initial, CellsText(cfg, cells) + RestText(cfg, rest)) ==
            Ok(RestState(cfg, StartState(cells), rest), CellEvents(cfg, cells))
  {
    RunCells(cfg, cells);
    RunRest(cfg, StartState(cells), rest);
    Continue(cfg, Initial, CellsText(cfg, cells), StartState(cells), CellEvents(cfg, cells), RestText(cfg, rest),
             RestState(cfg, StartState(cells), rest), []);
  }

  /** What the parser has called back when the text breaks off. */
  lemma ReadsDraft(cfg: Config, d: Draft)
    requires Proper(cfg) && DraftOk(cfg, d)
    ensures Sound(DraftState(cfg, d))
    ensures Run(cfg, Initial, DraftText(cfg, d)) == Ok(DraftState(cfg, d), DraftEvents(cfg, d))
  {
    ReadsDocument(cfg, d.lines);
    RunRow(cfg, d.cells, d.rest);
    Continue(cfg, Initial, DocumentText(cfg, d.lines), Initial, DocumentEvents(cfg, d.lines),
             CellsText(cfg, d.cells) + RestText(cfg, d.rest), DraftState(cfg, d), CellEvents(cfg, d.cells));
  }

  /** What csv_fini adds: the last cell, even without its closing quote, and the end of its row, unless there is
      nothing in that row. Only strict mode for the end of the input rejects the missing quote. */
  ghost function LastEvents(cfg: Config, d: Draft): Result {
    match d.rest
    case Whole(cell) =>
      if d.cells == [] && Empty(cfg, cell) then Ok(Initial, []) else Ok(Initial, [CellEvent(cfg, cell), Row(-1)])
    case Opened(_, tokens) =>
      if cfg.options.strict && cfg.options.strictFini then Strict else Ok(Initial, [Field(Value(cfg, tokens)), Row(-1)])
  }

  lemma FinishesDraft(cfg: Config, d: Draft)
    requires Proper(cfg) && DraftOk(cfg, d)
    ensures Sound(DraftState(cfg, d)) && Finish(cfg, DraftState(cfg, d)) == LastEvents(cfg, d)
  {
    ReadsDraft(cfg, d);
    if d.rest.Whole? {
      CellSubmitted(cfg, StartState(d.cells), d.rest.cell);
    }
  }

  // ---------------------------------------------------------------------------
  // Every text is a draft
  // ---------------------------------------------------------------------------

  /** Strict mode rejects a quote inside a cell without quotes, and after the closing quote anything but blanks
      and the end of the cell. */
  ghost predicate Rejected(cfg: Config, rest: Rest, c: Byte) {
    && cfg.options.strict && rest.Whole?
    && match rest.cell
       case Bare(text) => c == cfg.quote && !Blanks(cfg, text)
       case Enclosed(_, _, after) => Ordinary(cfg, c) || (c == cfg.quote && after != [])
  }

  lemma RestRejects(cfg: Config, st: State, rest: Rest, c: Byte)
    requires Proper(cfg) && AtFieldStart(st) && RestOk(cfg, rest) && Sound(RestState(cfg, st, rest))
    ensures Step(cfg, RestState(cfg, st, rest), c).Strict? <==> Rejected(cfg, rest, c)
  {
    match rest
    case Whole(Bare(text)) =>
      AllBlank(cfg, text);
    case Whole(Enclosed(_, tokens, after)) =>
    case Opened(_, tokens) =>
  }

  lemma RejectsExactly(cfg: Config, d: Draft, c: Byte)
    requires Proper(cfg) && DraftOk(cfg, d)
    ensures Sound(DraftState(cfg, d)) && (Step(cfg, DraftState(cfg, d), c).Strict? <==> Rejected(cfg, d.rest, c))
  {
    RunRow(cfg, d.cells, d.rest);
    RestRejects(cfg, StartState(d.cells), d.rest, c);
  }

  /** One more character. */
  ghost function Grown(cfg: Config, d: Draft, c: Byte): Draft {
    match d.rest
    case Whole(cell) =>
      if c == cfg.delim then Draft(d.lines, d.cells + [cell], Whole(Bare([])))
      else if cfg.isTerm(c) then Draft(d.lines + [Line(d.cells + [cell], c)], [], Whole(Bare([])))
      else
        (match cell
         case Bare(text) =>
           if c == cfg.quote && Blanks(cfg, text) then d.(rest := Opened(text, [])) else d.(rest := Whole(Bare(text + [c])))
         case Enclosed(before, tokens, after) =>
           if Blank(cfg, c) then d.(rest := Whole(Enclosed(before, tokens, after + [c])))
           else if c != cfg.quote then d.(rest := Opened(before, tokens + [Stray(after, c)]))
           else if after == [] then d.(rest := Opened(before, tokens + [Doubled]))
           else d.(rest := Whole(Enclosed(before, tokens + [Gap(after)], []))))
    case Opened(before, tokens) =>
      if c == cfg.quote then d.(rest := Whole(Enclosed(before, tokens, []))) else d.(rest := Opened(before, tokens + [Plain(c)]))
  }

  lemma BareGrows(cfg: Config, text: seq<Byte>, c: Byte)
    requires Proper(cfg) && BareOk(cfg, text) && !Ends(cfg, c) && (c == cfg.quote ==> !Blanks(cfg, text) && !cfg.options.strict)
    ensures BareOk(cfg, text + [c])
  {
    AllBlank(cfg, text);
    LeftTrimmedPush(cfg, text, c);
  }

  lemma TokensGrow(cfg: Config, ks: seq<Token>, k: Token)
    requires TokensOk(cfg, ks) && TokenOk(cfg, k) && (GapLast(ks) ==> !k.Plain?)
    ensures TokensOk(cfg, ks + [k])
  {
    assert (ks + [k])[..|ks|] == ks;
  }

  /** Growing a draft within its last cell. */
  lemma RestGrows(cfg: Config, d: Draft, c: Byte)
    requires Proper(cfg) && DraftOk(cfg, d) && !Rejected(cfg, d.rest, c) && (d.rest.Whole? ==> !Ends(cfg, c))
    ensures var e := Grown(cfg, d, c);
            e == d.(rest := e.rest) && RestOk(cfg, e.rest) && RestText(cfg, e.rest) == RestText(cfg, d.rest) + [c]
  {
    match d.rest
    case Whole(Bare(text)) =>
      if c == cfg.quote && Blanks(cfg, text) {
        assert text + [cfg.quote] + [] == text + [c];
      } else {
        BareGrows(cfg, text, c);
      }
    case Whole(Enclosed(before, tokens, after)) =>
      var front := before + [cfg.quote] + TokensText(cfg, tokens);
      if Blank(cfg, c) {
        assert front + [cfg.quote] + (after + [c]) == front + [cfg.quote] + after + [c];
      } else {
        EnclosedGrows(cfg, before, tokens, after, c);
      }
    case Opened(before, tokens) =>
      if c == cfg.quote {
        assert before + [cfg.quote] + TokensText(cfg, tokens) + [cfg.quote] + [] == RestText(cfg, d.rest) + [c];
      } else {
        TokensGrow(cfg, tokens, Plain(c));
        ValuePush(cfg, tokens, Plain(c));
        assert before + [cfg.quote] + (TokensText(cfg, tokens) + [c]) == RestText(cfg, d.rest) + [c];
      }
  }

  /** The closing quote turns out not to be one. */
  lemma EnclosedGrows(cfg: Config, before: seq<Byte>, tokens: seq<Token>, after: seq<Byte>, c: Byte)
    requires Proper(cfg) && CellOk(cfg, Enclosed(before, tokens, after)) && !Ends(cfg, c) && !Blank(cfg, c)
    requires !Rejected(cfg, Whole(Enclosed(before, tokens, after)), c)
    ensures var k := if c != cfg.quote then Stray(after, c) else if after == [] then Doubled else Gap(after);
            && TokensOk(cfg, tokens + [k])
            && before + [cfg.quote] + TokensText(cfg, tokens + [k]) + (if k.Gap? then [cfg.quote] else []) ==
               before + [cfg.quote] + TokensText(cfg, tokens) + [cfg.quote] + after + [c]
  {
    var k := if c != cfg.quote then Stray(after, c) else if after == [] then Doubled else Gap(after);
    TokensGrow(cfg, tokens, k);
    ValuePush(cfg, tokens, k);
    var front, text := before + [cfg.quote], TokensText(cfg, tokens);
    if c != cfg.quote {
      Regroup(front, text, [cfg.quote], after, [c]);
    } else if after == [] {
      assert [cfg.quote, cfg.quote] == [cfg.quote] + [] + [c];
      Regroup(front, text, [cfg.quote], [], [c]);
    } else {
      Regroup(front, text, [cfg.quote], after, [c]);
      Regroup(front, text, [cfg.quote], after, []);
    }
  }

  lemma Regroup(a: seq<Byte>, b: seq<Byte>, c: seq<Byte>, d: seq<Byte>, e: seq<Byte>)
    ensures a + (b + (c + d + e)) == a + b + c + d + e
  {
  }

  lemma CellEnds(cfg: Config, d: Draft, c: Byte)
    requires Proper(cfg) && DraftOk(cfg, d) && d.rest.Whole? && Ends(cfg, c)
    ensures DraftOk(cfg, Grown(cfg, d, c)) && DraftText(cfg, Grown(cfg, d, c)) == DraftText(cfg, d) + [c]
  {
    var cell := d.rest.cell;
    if c == cfg.delim {
      DelimiterText(cfg, d.cells, cell);
      Associate(DocumentText(cfg, d.lines), CellsText(cfg, d.cells), CellText(cfg, cell), [c]);
    } else {
      TerminatorText(cfg, d, cell, c);
    }
  }

  lemma Associate(a: seq<Byte>, b: seq<Byte>, c: seq<Byte>, d: seq<Byte>)
    ensures a + (b + c) + d == a + (b + (c + d)) == a + (b + (c + d) + [])
  {
  }

  lemma DelimiterText(cfg: Config, cells: seq<Cell>, cell: Cell)
    ensures CellsText(cfg, cells + [cell]) == CellsText(cfg, cells) + (CellText(cfg, cell) + [cfg.delim])
  {
    assert (cells + [cell])[..|cells|] == cells;
  }

  lemma TerminatorText(cfg: Config, d: Draft, cell: Cell, c: Byte)
    requires DraftOk(cfg, d) && d.rest == Whole(cell) && cfg.isTerm(c)
    ensures var e := Draft(d.lines + [Line(d.cells + [cell], c)], [], Whole(Bare([])));
            DraftOk(cfg, e) && DraftText(cfg, e) == DraftText(cfg, d) + [c]
  {
    var cells, line := d.cells + [cell], Line(d.cells + [cell], c);
    assert cells[..|d.cells|] == d.cells;
    var lines := d.lines + [line];
    assert lines[..|d.lines|] == d.lines;
    assert DocumentOk(cfg, lines);
    Associate(DocumentText(cfg, d.lines), CellsText(cfg, d.cells), CellText(cfg, cell), [c]);
    assert DocumentText(cfg, lines) == DocumentText(cfg, d.lines) + LineText(cfg, line);
    assert DocumentText(cfg, lines) + ([] + []) == DocumentText(cfg, lines);
  }

  lemma DraftGrows(cfg: Config, d: Draft, c: Byte)
    requires Proper(cfg) && DraftOk(cfg, d) && !Rejected(cfg, d.rest, c)
    ensures DraftOk(cfg, Grown(cfg, d, c)) && DraftText(cfg, Grown(cfg, d, c)) == DraftText(cfg, d) + [c]
  {
    if d.rest.Whole? && Ends(cfg, c) {
      CellEnds(cfg, d, c);
    } else {
      RestGrows(cfg, d, c);
      Associate(DocumentText(cfg, d.lines), CellsText(cfg, d.cells), RestText(cfg, d.rest), [c]);
    }
  }

  lemma NothingYet(cfg: Config)
    ensures var d := Draft([], [], Whole(Bare([]))); DraftOk(cfg, d) && DraftText(cfg, d) == []
  {
  }

  /** Every text that is not rejected is a draft, so that ReadsDraft and FinishesDraft say what becomes of it;
      without strict mode no text is rejected. */
  lemma {:induction false} EveryText(cfg: Config, s: seq<Byte>) returns (d: Draft)
    requires Proper(cfg) && (Run(cfg, Initial, s).Ok? || !cfg.options.strict)
    ensures DraftOk(cfg, d) && DraftText(cfg, d) == s && Run(cfg, Initial, s) == Ok(DraftState(cfg, d), DraftEvents(cfg, d))
    decreases |s|
  {
    if s == [] {
      d := Draft([], [], Whole(Bare([])));
      NothingYet(cfg);
    } else {
      var n := |s| - 1;
      assert s[..n] + [s[n]] == s;
      var front := EveryText(cfg, s[..n]);
      OneMore(cfg, front, s[..n], s[n]);
      d := Grown(cfg, front, s[n]);
    }
    ReadsDraft(cfg, d);
  }

  lemma OneMore(cfg: Config, d: Draft, s: seq<Byte>, c: Byte)
    requires Proper(cfg) && DraftOk(cfg, d) && DraftText(cfg, d) == s && (Run(cfg, Initial, s + [c]).Ok? || !cfg.options.strict)
    ensures DraftOk(cfg, Grown(cfg, d, c)) && DraftText(cfg, Grown(cfg, d, c)) == s + [c]
  {
    StopsAt(cfg, d, c);
    DraftGrows(cfg, d, c);
  }

  /** In strict mode parsing stops exactly at the first character that is rejected. */
  lemma StopsAt(cfg: Config, d: Draft, c: Byte)
    requires Proper(cfg) && DraftOk(cfg, d)
    ensures Run(cfg, Initial, DraftText(cfg, d) + [c]).Strict? <==> Rejected(cfg, d.rest, c)
  {
    ReadsDraft(cfg, d);
    RejectsExactly(cfg, d, c);
    RunOne(cfg, Initial, DraftText(cfg, d), c);
  }

  // ---------------------------------------------------------------------------
  // The parser object
  // ---------------------------------------------------------------------------

  /** csv_init with any options. */
  lemma DefaultIsProper(options: Options)
    ensures Proper(Default(options)) && Default(options).delim == 44 && Default(options).quote == 34
    ensures forall c: Byte :: Default(options).isSpace(c) <==> c == 32 || c == 9
    ensures forall c: Byte :: Default(options).isTerm(c) <==> c == 13 || c == 10
  {
  }

  /** The draft of a text that has been parsed, and what csv_fini will do. */
  lemma WholeText(cfg: Config, s: seq<Byte>, st: State, calls: seq<Event>) returns (d: Draft)
    requires Proper(cfg) && Run(cfg, Initial, s) == Ok(st, calls)
    ensures DraftOk(cfg, d) && DraftText(cfg, d) == s && calls == DraftEvents(cfg, d)
    ensures Sound(st) && Finish(cfg, st) == LastEvents(cfg, d)
  {
    d := EveryText(cfg, s);
    FinishesDraft(cfg, d);
  }

  /** csv_parse on a whole text and csv_fini: the callbacks are those of the draft that the text is. ok is false
      when memory ran out or strict mode rejected something. */
  method ReadAll(cfg: Config, blkSize: nat, realloc: nat -> bool, s: seq<Byte>) returns (ok: bool, calls: seq<Event>, ghost d: Draft)
    requires Proper(cfg)
    ensures ok ==> DraftOk(cfg, d) && DraftText(cfg, d) == s && LastEvents(cfg, d).Ok?
    ensures ok ==> calls == DraftEvents(cfg, d) + LastEvents(cfg, d).events
  {
    var parser := new Parser(cfg, blkSize, realloc);
    d := Draft([], [], Whole(Bare([])));
    calls := [];
    ok := ParseWhole(parser, s);
    if ok {
      d := WholeText(cfg, s, parser.Current(), parser.calls);
      ok := parser.Fini();
      calls := parser.calls;
    }
  }

  method ParseWhole(parser: Parser, s: seq<Byte>) returns (ok: bool)
    requires parser.Valid() && parser.Current() == Initial && parser.calls == []
    modifies parser, parser.entryBuf
    ensures parser.Valid() && (parser.entryBuf == old(parser.entryBuf) || fresh(parser.entryBuf))
    ensures ok ==> Run(parser.cfg, Initial, s) == Ok(parser.Current(), parser.calls)
  {
    var pos := parser.Parse(s);
    ok := pos == |s|;
    assert s[..|s|] == s;
  }
}
