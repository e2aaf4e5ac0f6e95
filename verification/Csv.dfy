/**
 The streaming CSV parser and the quoting writer
 (CDNSimulator/libCacheSim/traceReader/libcsv.c).
 */
module Csv {

  import opened Bytes

  const TAB: Byte := 9
  const SPACE: Byte := 32
  const CR: Byte := 13
  const LF: Byte := 10
  const COMMA: Byte := 44
  const QUOTE: Byte := 34

  // ---------------------------------------------------------------------------
  // The state machine
  // ---------------------------------------------------------------------------

  datatype Phase = RowNotBegun | FieldNotBegun | FieldBegun | MightHaveEnded

  datatype Options = Options(strict: bool, repallNl: bool, strictFini: bool, appendNull: bool, emptyIsNull: bool)

  datatype Config = Config(delim: Byte, quote: Byte, isSpace: Byte -> bool, isTerm: Byte -> bool, options: Options)

  /** entry is what has been written to the buffer, entry_buf[..entry_pos]. */
  datatype State = State(phase: Phase, quoted: bool, spaces: nat, entry: seq<Byte>)

  /** The callbacks: a field, a field submitted as NULL, the end of a row. */
  datatype Event = Field(bytes: seq<Byte>) | NullField | Row(c: int)

  datatype Result = Ok(state: State, events: seq<Event>) | Strict

  const Initial := State(RowNotBegun, false, 0, [])

  /** entry_pos can always be lowered by as much as the code lowers it. */
  ghost predicate Sound(st: State) {
    match st.phase
    case RowNotBegun => st == Initial
    case FieldNotBegun => st == Initial.(phase := FieldNotBegun)
    case FieldBegun => st.spaces <= |st.entry| && (st.quoted ==> st.spaces == 0)
    case MightHaveEnded => st.quoted && st.spaces + 1 <= |st.entry|
  }

  /** The field that SUBMIT_FIELD hands to the callback. */
  function Submitted(cfg: Config, st: State): (e: Event)
    requires st.quoted || st.spaces <= |st.entry|
  {
    var bytes := if st.quoted then st.entry else st.entry[..|st.entry| - st.spaces];
    if cfg.options.emptyIsNull && !st.quoted && bytes == [] then NullField else Field(bytes)
  }

  function SubmitField(cfg: Config, st: State): (r: Result)
    requires st.quoted || st.spaces <= |st.entry|
  {
    Ok(State(FieldNotBegun, false, 0, []), [Submitted(cfg, st)])
  }

  function SubmitRow(cfg: Config, st: State, c: int): Result
    requires st.quoted || st.spaces <= |st.entry|
  {
    Ok(Initial, [Submitted(cfg, st), Row(c)])
  }

  function SubmitChar(st: State, c: Byte): State {
    st.(entry := st.entry + [c])
  }

  function AtStart(cfg: Config, st: State, c: Byte): Result
    requires Sound(st) && (st.phase == RowNotBegun || st.phase == FieldNotBegun)
  {
    if cfg.isSpace(c) && c != cfg.delim then Ok(st, [])
    else if cfg.isTerm(c) then
      if st.phase == FieldNotBegun then SubmitRow(cfg, st, c)
      else if cfg.options.repallNl then Ok(Initial, [Row(c)])
      else Ok(st, [])
    else if c == cfg.delim then SubmitField(cfg, st)
    else if c == cfg.quote then Ok(st.(phase := FieldBegun, quoted := true), [])
    else Ok(SubmitChar(st.(phase := FieldBegun, quoted := false), c), [])
  }

  function InField(cfg: Config, st: State, c: Byte): Result
    requires Sound(st) && st.phase == FieldBegun
  {
    if c == cfg.quote then
      if st.quoted then Ok(SubmitChar(st, c).(phase := MightHaveEnded), [])
      else if cfg.options.strict then Strict
      else Ok(SubmitChar(st, c).(spaces := 0), [])
    else if c == cfg.delim then
      if st.quoted then Ok(SubmitChar(st, c), []) else SubmitField(cfg, st)
    else if cfg.isTerm(c) then
      if !st.quoted then SubmitRow(cfg, st, c) else Ok(SubmitChar(st, c), [])
    else if !st.quoted && cfg.isSpace(c) then Ok(SubmitChar(st, c).(spaces := st.spaces + 1), [])
    else Ok(SubmitChar(st, c).(spaces := 0), [])
  }

  /** Get rid of the spaces and of the quote before them. */
  function Unquoted(st: State): State
    requires st.spaces + 1 <= |st.entry|
  {
    st.(entry := st.entry[..|st.entry| - (st.spaces + 1)])
  }

  function AfterQuote(cfg: Config, st: State, c: Byte): Result
    requires Sound(st) && st.phase == MightHaveEnded
  {
    if c == cfg.delim then SubmitField(cfg, Unquoted(st))
    else if cfg.isTerm(c) then SubmitRow(cfg, Unquoted(st), c)
    else if cfg.isSpace(c) then Ok(SubmitChar(st, c).(spaces := st.spaces + 1), [])
    else if c == cfg.quote then
      if st.spaces > 0 then
        if cfg.options.strict then Strict else Ok(SubmitChar(st, c).(spaces := 0), [])
      else Ok(st.(phase := FieldBegun), [])
    else if cfg.options.strict then Strict
    else Ok(SubmitChar(st, c).(phase := FieldBegun, spaces := 0), [])
  }

  /** One character. The positions never underflow, and at most one byte is added to the entry. */
  function Step(cfg: Config, st: State, c: Byte): (r: Result)
    requires Sound(st)
    ensures r.Ok? ==> Sound(r.state) && |r.state.entry| <= |st.entry| + 1
  {
    match st.phase
    case FieldBegun => InField(cfg, st, c)
    case MightHaveEnded => AfterQuote(cfg, st, c)
    case _ => AtStart(cfg, st, c)
  }

  /** A whole input; Strict when a character is rejected. */
  ghost function Run(cfg: Config, st: State, s: seq<Byte>): (r: Result)
    requires Sound(st)
    ensures r.Ok? ==> Sound(r.state)
  {
    if s == [] then Ok(st, [])
    else
      match Run(cfg, st, s[..|s| - 1])
      case Strict => Strict
      case Ok(st', events) =>
        match Step(cfg, st', s[|s| - 1])
        case Strict => Strict
        case Ok(st'', more) => Ok(st'', events + more)
  }

  /** Parsing b where parsing a has left off. */
  ghost function Then(cfg: Config, r: Result, b: seq<Byte>): Result
    requires r.Ok? ==> Sound(r.state)
  {
    match r
    case Strict => Strict
    case Ok(st, events) =>
      match Run(cfg, st, b)
      case Strict => Strict
      case Ok(st', more) => Ok(st', events + more)
  }

  /** Splitting the input between calls, anywhere, gives the same callbacks and the same final state. */
  lemma {:induction false} SplitInput(cfg: Config, st: State, a: seq<Byte>, b: seq<Byte>)
    requires Sound(st)
    ensures Run(cfg, st, a + b) == Then(cfg, Run(cfg, st, a), b)
    decreases |b|
  {
    if b == [] {
      assert a + b == a;
    } else {
      var n := |b| - 1;
      assert (a + b)[..|a + b| - 1] == a + b[..n];
      SplitInput(cfg, st, a, b[..n]);
      if Run(cfg, st, a).Ok? {
        SplitStep(cfg, Run(cfg, st, a), b);
      }
    }
  }

  lemma SplitStep(cfg: Config, r: Result, b: seq<Byte>)
    requires r.Ok? && Sound(r.state) && b != []
    ensures Then(cfg, r, b) == match Then(cfg, r, b[..|b| - 1])
                               case Strict => Strict
                               case Ok(st, events) =>
                                 (match Step(cfg, st, b[|b| - 1])
                                  case Strict => Strict
                                  case Ok(st', more) => Ok(st', events + more))
  {
    var mid := Run(cfg, r.state, b[..|b| - 1]);
    if mid.Ok? {
      var last := Step(cfg, mid.state, b[|b| - 1]);
      if last.Ok? {
        assert r.events + (mid.events + last.events) == (r.events + mid.events) + last.events;
      }
    }
  }

  /** Input in any number of pieces. */
  ghost function Pieces(cfg: Config, r: Result, pieces: seq<seq<Byte>>): (r': Result)
    requires r.Ok? ==> Sound(r.state)
    ensures r'.Ok? ==> Sound(r'.state)
    decreases |pieces|
  {
    if pieces == [] then r
    else Then(cfg, Pieces(cfg, r, pieces[..|pieces| - 1]), pieces[|pieces| - 1])
  }

  /** The callbacks do not depend on how the input is cut into pieces. */
  lemma {:induction false} AnyPieces(cfg: Config, st: State, pieces: seq<seq<Byte>>)
    requires Sound(st)
    ensures Pieces(cfg, Ok(st, []), pieces) == Run(cfg, st, Concat(pieces))
    decreases |pieces|
  {
    if pieces != [] {
      var n := |pieces| - 1;
      AnyPieces(cfg, st, pieces[..n]);
      SplitInput(cfg, st, Concat(pieces[..n]), pieces[n]);
    }
  }

  // ---------------------------------------------------------------------------
  // Finishing
  // ---------------------------------------------------------------------------

  /** csv_fini: what is left is submitted with row terminator -1. */
  function Finish(cfg: Config, st: State): Result
    requires Sound(st)
  {
    if st.phase == FieldBegun && st.quoted && cfg.options.strict && cfg.options.strictFini then Strict
    else
      match st.phase
      case RowNotBegun => Ok(Initial, [])
      case MightHaveEnded => SubmitRow(cfg, Unquoted(st), -1)
      case _ => SubmitRow(cfg, st, -1)
  }

  // ---------------------------------------------------------------------------
  // Writing and reading back
  // ---------------------------------------------------------------------------

  /** The characters between the quotes, with quotes doubled. */
  function Escaped(src: seq<Byte>): seq<Byte> {
    if src == [] then []
    else Escaped(src[..|src| - 1]) + if src[|src| - 1] == QUOTE then [QUOTE, QUOTE] else [src[|src| - 1]]
  }

  /** What csv_write makes of a field. */
  function Quoted(src: seq<Byte>): seq<Byte> {
    [QUOTE] + Escaped(src) + [QUOTE]
  }

  predicate IsDefaultSpace(c: Byte) {
    c == SPACE || c == TAB
  }

  predicate IsDefaultTerm(c: Byte) {
    c == CR || c == LF
  }

  /** The parser as csv_init sets it up, with any options. */
  function Default(options: Options): Config {
    Config(COMMA, QUOTE, IsDefaultSpace, IsDefaultTerm, options)
  }

  ghost predicate AtFieldStart(st: State) {
    Sound(st) && (st.phase == RowNotBegun || st.phase == FieldNotBegun)
  }

  /** One more character of a run. */
  lemma RunOne(cfg: Config, st: State, s: seq<Byte>, c: Byte)
    requires Sound(st) && Run(cfg, st, s).Ok?
    ensures Run(cfg, st, s + [c]) == match Step(cfg, Run(cfg, st, s).state, c)
                                     case Strict => Strict
                                     case Ok(st', more) => Ok(st', Run(cfg, st, s).events + more)
  {
    assert (s + [c])[..|s + [c]| - 1] == s;
  }

  lemma RunStart(cfg: Config, st: State, c: Byte)
    requires Sound(st)
    ensures Run(cfg, st, [c]) == Step(cfg, st, c)
  {
    assert [c][..0] == [];
  }

  ghost predicate ReadsAs(options: Options, text: seq<Byte>, src: seq<Byte>) {
    Run(Default(options), State(FieldBegun, true, 0, []), text) == Ok(State(FieldBegun, true, 0, src), [])
  }

  lemma ReadPlain(options: Options, text: seq<Byte>, src: seq<Byte>, c: Byte)
    requires ReadsAs(options, text, src) && c != QUOTE
    ensures ReadsAs(options, text + [c], src + [c])
  {
    RunOne(Default(options), State(FieldBegun, true, 0, []), text, c);
  }

  lemma ReadDoubled(options: Options, text: seq<Byte>, src: seq<Byte>)
    requires ReadsAs(options, text, src)
    ensures ReadsAs(options, text + [QUOTE] + [QUOTE], src + [QUOTE])
  {
    var cfg, st := Default(options), State(FieldBegun, true, 0, []);
    RunOne(cfg, st, text, QUOTE);
    RunOne(cfg, st, text + [QUOTE], QUOTE);
  }

  /** Inside the quotes the entry becomes the original bytes. */
  lemma {:induction false} ReadEscaped(options: Options, src: seq<Byte>)
    ensures ReadsAs(options, Escaped(src), src)
    decreases |src|
  {
    if src != [] {
      var n := |src| - 1;
      ReadEscaped(options, src[..n]);
      assert src[..n] + [src[n]] == src;
      if src[n] == QUOTE {
        ReadDoubled(options, Escaped(src[..n]), src[..n]);
        assert Escaped(src[..n]) + [QUOTE] + [QUOTE] == Escaped(src[..n]) + [QUOTE, QUOTE];
      } else {
        ReadPlain(options, Escaped(src[..n]), src[..n], src[n]);
      }
    }
  }

  /** A written field is read back up to its closing quote. */
  lemma ReadQuoted(options: Options, st: State, src: seq<Byte>)
    requires AtFieldStart(st)
    ensures Run(Default(options), st, Quoted(src)) == Ok(State(MightHaveEnded, true, 0, src + [QUOTE]), [])
  {
    var cfg := Default(options);
    RunStart(cfg, st, QUOTE);
    SplitInput(cfg, st, [QUOTE], Escaped(src));
    ReadEscaped(options, src);
    RunOne(cfg, st, [QUOTE] + Escaped(src), QUOTE);
  }

  /** A written field and the character after it. */
  lemma ReadField(options: Options, st: State, src: seq<Byte>, c: Byte)
    requires AtFieldStart(st) && (c == COMMA || c == LF || c == CR)
    ensures Run(Default(options), st, Quoted(src) + [c]) ==
            if c == COMMA then Ok(Initial.(phase := FieldNotBegun), [Field(src)]) else Ok(Initial, [Field(src), Row(c)])
  {
    ReadQuoted(options, st, src);
    ClosingStep(options, src, c);
    RunOne(Default(options), st, Quoted(src), c);
  }

  lemma ClosingStep(options: Options, src: seq<Byte>, c: Byte)
    requires c == COMMA || c == LF || c == CR
    ensures Step(Default(options), State(MightHaveEnded, true, 0, src + [QUOTE]), c) ==
            if c == COMMA then Ok(Initial.(phase := FieldNotBegun), [Field(src)]) else Ok(Initial, [Field(src), Row(c)])
  {
    assert (src + [QUOTE])[..|src|] == src;
  }

  /** Fields written by csv_write, each followed by a comma. */
  ghost function Written(fields: seq<seq<Byte>>): seq<Byte> {
    if fields == [] then [] else Written(fields[..|fields| - 1]) + (Quoted(fields[|fields| - 1]) + [COMMA])
  }

  ghost function FieldEvents(fields: seq<seq<Byte>>): seq<Event> {
    seq(|fields|, i requires 0 <= i < |fields| => Field(fields[i]))
  }

  ghost predicate RowSoFar(options: Options, text: seq<Byte>, fields: seq<seq<Byte>>) {
    var r := Run(Default(options), Initial, text);
    r.Ok? && r.events == FieldEvents(fields) && AtFieldStart(r.state)
  }

  lemma ReadNext(options: Options, text: seq<Byte>, fields: seq<seq<Byte>>, src: seq<Byte>)
    requires RowSoFar(options, text, fields)
    ensures RowSoFar(options, text + (Quoted(src) + [COMMA]), fields + [src])
  {
    var r := Run(Default(options), Initial, text);
    ReadField(options, r.state, src, COMMA);
    SplitInput(Default(options), Initial, text, Quoted(src) + [COMMA]);
    assert FieldEvents(fields) + [Field(src)] == FieldEvents(fields + [src]);
  }

  lemma {:induction false} ReadWritten(options: Options, fields: seq<seq<Byte>>)
    ensures RowSoFar(options, Written(fields), fields)
    decreases |fields|
  {
    if fields != [] {
      var n := |fields| - 1;
      ReadWritten(options, fields[..n]);
      ReadNext(options, Written(fields[..n]), fields[..n], fields[n]);
      assert fields[..n] + [fields[n]] == fields;
    }
  }

  /** Round trip (section 2 of RFC 4180): fields written by csv_write, joined by commas and ended by a
      line break, are read back as exactly one row of the original bytes, whatever the options. */
  lemma RoundTrip(options: Options, fields: seq<seq<Byte>>, last: seq<Byte>, c: Byte)
    requires c == LF || c == CR
    ensures Run(Default(options), Initial, Written(fields) + (Quoted(last) + [c])) ==
            Ok(Initial, FieldEvents(fields + [last]) + [Row(c)])
  {
    var cfg := Default(options);
    ReadWritten(options, fields);
    var r := Run(cfg, Initial, Written(fields));
    ReadField(options, r.state, last, c);
    SplitInput(cfg, Initial, Written(fields), Quoted(last) + [c]);
    assert FieldEvents(fields) + [Field(last), Row(c)] == FieldEvents(fields + [last]) + [Row(c)];
  }

  /** Without the line break, finishing the input gives the same row. */
  lemma RoundTripAtEnd(options: Options, fields: seq<seq<Byte>>, last: seq<Byte>)
    ensures var r := Run(Default(options), Initial, Written(fields) + Quoted(last));
            && r.Ok? && r.events == FieldEvents(fields)
            && Finish(Default(options), r.state) == Ok(Initial, [Field(last), Row(-1)])
  {
    var cfg := Default(options);
    ReadWritten(options, fields);
    var r := Run(cfg, Initial, Written(fields));
    ReadQuoted(options, r.state, last);
    SplitInput(cfg, Initial, Written(fields), Quoted(last));
    assert r.events + [] == r.events;
    FinishQuoted(options, last);
  }

  lemma FinishQuoted(options: Options, src: seq<Byte>)
    ensures Finish(Default(options), State(MightHaveEnded, true, 0, src + [QUOTE])) == Ok(Initial, [Field(src), Row(-1)])
  {
    assert (src + [QUOTE])[..|src|] == src;
  }

  // ---------------------------------------------------------------------------
  // csv_write
  // ---------------------------------------------------------------------------

  /** As much of text as fits has been written. */
  ghost predicate Holds(dest: seq<Byte>, text: seq<Byte>) {
    forall i {:trigger dest[i]} :: 0 <= i < |dest| && i < |text| ==> dest[i] == text[i]
  }

  method PutChar(dest: array<Byte>, chars: nat, c: Byte, ghost text: seq<Byte>)
    requires Holds(dest[..], text) && chars == |text|
    modifies dest
    ensures Holds(dest[..], text + [c])
  {
    if dest.Length > chars {
      dest[chars] := c;
    }
  }

  /** csv_write: the length of the whole quoted field, of which as much as fits is in dest. */
  method CsvWrite(dest: array<Byte>, src: seq<Byte>) returns (chars: nat)
    modifies dest
    ensures chars == |Quoted(src)| && Holds(dest[..], Quoted(src))
  {
    PutChar(dest, 0, QUOTE, []);
    chars := 1;
    assert [] + [QUOTE] == [QUOTE] + Escaped(src[..0]);
    for i := 0 to |src|
      invariant chars == 1 + |Escaped(src[..i])| && Holds(dest[..], [QUOTE] + Escaped(src[..i]))
    {
      ghost var text := [QUOTE] + Escaped(src[..i]);
      assert src[..i + 1][..i] == src[..i];
      if src[i] == QUOTE {
        PutChar(dest, chars, QUOTE, text);
        chars := chars + 1;
        assert text + [QUOTE] + [QUOTE] == [QUOTE] + Escaped(src[..i + 1]);
        text := text + [QUOTE];
      } else {
        assert text + [src[i]] == [QUOTE] + Escaped(src[..i + 1]);
      }
      PutChar(dest, chars, src[i], text);
      chars := chars + 1;
    }
    assert src[..|src|] == src;
    PutChar(dest, chars, QUOTE, [QUOTE] + Escaped(src));
    chars := chars + 1;
  }

  // ---------------------------------------------------------------------------
  // The parser object
  // ---------------------------------------------------------------------------

  datatype Status = Success | ParseError | NoMemory | TooBig

  const SIZE_MAX: nat := 0xffff_ffff_ffff_ffff

  /** n halved k times. */
  ghost function Halved(n: nat, k: nat): nat {
    if k == 0 then n else Halved(n, k - 1) / 2
  }

  lemma {:induction false} NoneBehind(n: nat, k: nat)
    requires Halved(n, k) == 0
    ensures forall j: nat {:trigger Halved(n, j)} :: j >= k ==> Halved(n, j) == 0
  {
    forall j: nat {:trigger Halved(n, j)} | j >= k
      ensures Halved(n, j) == 0
    {
      StaysNothing(n, k, j);
    }
  }

  lemma {:induction false} StaysNothing(n: nat, k: nat, j: nat)
    requires Halved(n, k) == 0 && k <= j
    ensures Halved(n, j) == 0
    decreases j
  {
    if k < j {
      StaysNothing(n, k, j - 1);
    }
  }

  /** The growth tried first: a block, or as much as there can be. */
  function FirstGrowth(size: nat, blkSize: nat): nat
    requires size <= SIZE_MAX
  {
    if blkSize < SIZE_MAX - size then blkSize else SIZE_MAX - size
  }

  /** The buffer has grown by the first of the halved amounts that was granted. */
  ghost predicate GrowsBy(realloc: nat -> bool, size: nat, blkSize: nat, k: nat, grown: nat) {
    && size <= SIZE_MAX && grown == size + Halved(FirstGrowth(size, blkSize), k) && realloc(grown)
    && forall j: nat {:trigger Halved(FirstGrowth(size, blkSize), j)} ::
         j < k && Halved(FirstGrowth(size, blkSize), j) > 0 ==> !realloc(size + Halved(FirstGrowth(size, blkSize), j))
  }

  /** None of the halved amounts was granted. */
  ghost predicate Refused(realloc: nat -> bool, size: nat, blkSize: nat) {
    size <= SIZE_MAX &&
    forall j: nat {:trigger Halved(FirstGrowth(size, blkSize), j)} ::
      Halved(FirstGrowth(size, blkSize), j) > 0 ==> !realloc(size + Halved(FirstGrowth(size, blkSize), j))
  }

  lemma NothingToGrow(realloc: nat -> bool, size: nat, blkSize: nat)
    requires size <= SIZE_MAX && FirstGrowth(size, blkSize) == 0
    ensures Refused(realloc, size, blkSize)
  {
    NoneBehind(0, 0);
  }

  class Parser {
    const cfg: Config
    const blkSize: nat
    /** Whether realloc to this size succeeds. */
    const realloc: nat -> bool
    var phase: Phase
    var quoted: bool
    var spaces: nat
    var entryPos: nat
    /** entry_buf, whose length is entry_size; empty when it is NULL. */
    var entryBuf: array<Byte>
    var status: Status
    /** The callbacks made so far. */
    var calls: seq<Event>

    ghost predicate Valid()
      reads this, entryBuf
    {
      && entryPos <= entryBuf.Length <= SIZE_MAX && Sound(Current())
      && (cfg.options.appendNull && entryBuf.Length > 0 ==> entryPos < entryBuf.Length)
      && (phase != RowNotBegun ==> entryBuf.Length > 0)
    }

    ghost function Current(): State
      requires entryPos <= entryBuf.Length
      reads this, entryBuf
    {
      State(phase, quoted, spaces, entryBuf[..entryPos])
    }

    constructor (cfg: Config, blkSize: nat, realloc: nat -> bool)
      ensures Valid() && Current() == Initial && calls == [] && status == Success && fresh(entryBuf)
      ensures this.cfg == cfg && this.blkSize == blkSize && this.realloc == realloc && entryBuf.Length == 0
    {
      this.cfg, this.blkSize, this.realloc := cfg, blkSize, realloc;
      phase, quoted, spaces, entryPos := RowNotBegun, false, 0, 0;
      entryBuf := new Byte[0];
      status, calls := Success, [];
    }

    /** csv_increase_buffer: the buffer grows by at least one byte, or the status says why not. */
    method IncreaseBuffer() returns (ok: bool, ghost k: nat)
      requires Valid()
      modifies this`entryBuf, this`status
      ensures Valid() && Current() == old(Current()) && fresh(if ok then {entryBuf} else {})
      ensures ok ==> entryBuf.Length > old(entryBuf.Length) && status == old(status)
      ensures !ok ==> entryBuf == old(entryBuf) && (status == TooBig || status == NoMemory)
      ensures ok ==> GrowsBy(realloc, old(entryBuf.Length), blkSize, k, entryBuf.Length)
      ensures !ok ==> (status == TooBig <==> FirstGrowth(old(entryBuf.Length), blkSize) == 0)
      ensures !ok ==> Refused(realloc, old(entryBuf.Length), blkSize)
    {
      var toAdd := blkSize;
      k := 0;
      if entryBuf.Length + toAdd >= SIZE_MAX {
        toAdd := SIZE_MAX - entryBuf.Length;
      }
      if toAdd == 0 {
        NothingToGrow(realloc, entryBuf.Length, blkSize);
        status := TooBig;
        return false, 0;
      }
      toAdd, k := Granted(entryBuf.Length, toAdd);
      if toAdd == 0 {
        status := NoMemory;
        return false, k;
      }
      Grow(toAdd);
      ok := true;
    }

    /** realloc that succeeds. */
    method Grow(toAdd: nat)
      requires Valid() && 0 < toAdd && entryBuf.Length + toAdd <= SIZE_MAX
      modifies this`entryBuf
      ensures Valid() && Current() == old(Current()) && fresh(entryBuf) && entryBuf.Length == old(entryBuf.Length) + toAdd
    {
      var grown := new Byte[entryBuf.Length + toAdd](i requires 0 <= i < entryBuf.Length + toAdd reads this, entryBuf =>
        if i < entryBuf.Length then entryBuf[i] else 0);
      assert grown[..entryPos] == entryBuf[..entryPos];
      entryBuf := grown;
    }

    /** The loop that halves the amount until it is granted; 0 when it never is. */
    method Granted(size: nat, first: nat) returns (toAdd: nat, ghost k: nat)
      requires size <= SIZE_MAX && 0 < first == FirstGrowth(size, blkSize)
      ensures size + toAdd <= SIZE_MAX
      ensures if toAdd > 0 then GrowsBy(realloc, size, blkSize, k, size + toAdd) else Refused(realloc, size, blkSize)
    {
      toAdd, k := first, 0;
      while !realloc(size + toAdd)
        invariant 0 < toAdd == Halved(first, k) <= first
        invariant forall j: nat {:trigger Halved(first, j)} :: j < k ==> !realloc(size + Halved(first, j))
        decreases toAdd
      {
        toAdd := toAdd / 2;
        k := k + 1;
        if toAdd == 0 {
          NoneBehind(first, k);
          return;
        }
      }
    }

    /** There is room for one more byte, and for a null after it if fields end with one. */
    ghost predicate Room()
      reads this
    {
      entryPos + (if cfg.options.appendNull then 1 else 0) < entryBuf.Length
    }

    /** What one character does, in terms of the state machine. */
    twostate predicate Does(r: Result)
      reads this, entryBuf
    {
      r.Ok? && Valid() && Current() == r.state && calls == old(calls) + r.events
    }

    /** SUBMIT_CHAR; the write is in bounds. */
    method PutInEntry(c: Byte)
      requires entryPos < entryBuf.Length
      modifies this`entryPos, entryBuf
      ensures entryPos == old(entryPos) + 1 && entryBuf[..entryPos] == old(entryBuf[..entryPos]) + [c]
    {
      entryBuf[entryPos] := c;
      entryPos := entryPos + 1;
    }

    /** SUBMIT_FIELD; neither the subtraction nor the write of the null goes out of bounds. */
    method SubmitFieldNow()
      requires entryPos <= entryBuf.Length <= SIZE_MAX && entryBuf.Length > 0 && (quoted || spaces <= entryPos)
      requires cfg.options.appendNull ==> entryPos < entryBuf.Length
      modifies this`entryPos, this`phase, this`quoted, this`spaces, this`calls, entryBuf
      ensures Does(SubmitField(cfg, old(Current())))
      ensures cfg.options.appendNull ==> entryBuf[old(if quoted then entryPos else entryPos - spaces)] == 0
    {
      if !quoted {
        entryPos := entryPos - spaces;
      }
      ghost var bytes := entryBuf[..entryPos];
      assert bytes == if quoted then old(Current()).entry else old(Current()).entry[..entryPos];
      if cfg.options.emptyIsNull && !quoted && entryPos == 0 {
        calls := calls + [NullField];
      } else {
        calls := calls + [Field(entryBuf[..entryPos])];
      }
      if cfg.options.appendNull {
        entryBuf[entryPos] := 0;
      }
      phase := FieldNotBegun;
      entryPos, quoted, spaces := 0, false, 0;
    }

    /** SUBMIT_ROW. */
    method SubmitRowNow(c: int)
      requires Valid()
      modifies this`entryPos, this`phase, this`quoted, this`spaces, this`calls
      ensures Valid() && Current() == Initial && calls == old(calls) + [Row(c)]
    {
      calls := calls + [Row(c)];
      phase := RowNotBegun;
      entryPos, quoted, spaces := 0, false, 0;
    }

    method SubmitBoth(c: int)
      requires entryPos <= entryBuf.Length <= SIZE_MAX && entryBuf.Length > 0 && (quoted || spaces <= entryPos)
      requires cfg.options.appendNull ==> entryPos < entryBuf.Length
      modifies this`entryPos, this`phase, this`quoted, this`spaces, this`calls, entryBuf
      ensures Does(SubmitRow(cfg, old(Current()), c))
    {
      SubmitFieldNow();
      SubmitRowNow(c);
    }

    /** The cases ROW_NOT_BEGUN and FIELD_NOT_BEGUN. */
    method StartChar(c: Byte)
      requires Valid() && Room() && (phase == RowNotBegun || phase == FieldNotBegun)
      modifies this`entryPos, this`phase, this`quoted, this`spaces, this`calls, entryBuf
      ensures Does(AtStart(cfg, old(Current()), c))
    {
      if cfg.isSpace(c) && c != cfg.delim {
        return;
      } else if cfg.isTerm(c) {
        if phase == FieldNotBegun {
          SubmitBoth(c);
        } else if cfg.options.repallNl {
          SubmitRowNow(c);
        }
        return;
      } else if c == cfg.delim {
        SubmitFieldNow();
      } else if c == cfg.quote {
        phase := FieldBegun;
        quoted := true;
      } else {
        phase := FieldBegun;
        quoted := false;
        PutInEntry(c);
      }
    }

    /** The case FIELD_BEGUN; false when strict mode rejects the character. */
    method FieldChar(c: Byte) returns (ok: bool)
      requires Valid() && Room() && phase == FieldBegun
      modifies this`entryPos, this`phase, this`quoted, this`spaces, this`calls, entryBuf
      ensures if ok then Does(InField(cfg, old(Current()), c))
              else InField(cfg, old(Current()), c).Strict? && Valid() && Current() == old(Current()) && calls == old(calls)
    {
      if c == cfg.quote {
        if quoted {
          PutInEntry(c);
          phase := MightHaveEnded;
        } else {
          if cfg.options.strict {
            return false;
          }
          PutInEntry(c);
          spaces := 0;
        }
      } else if c == cfg.delim {
        if quoted {
          PutInEntry(c);
        } else {
          SubmitFieldNow();
        }
      } else if cfg.isTerm(c) {
        if !quoted {
          SubmitBoth(c);
        } else {
          PutInEntry(c);
        }
      } else if !quoted && cfg.isSpace(c) {
        PutInEntry(c);
        spaces := spaces + 1;
      } else {
        PutInEntry(c);
        spaces := 0;
      }
      return true;
    }

    /** Drop the spaces and the quote before them; the position does not underflow. */
    method DropQuote()
      requires Valid() && phase == MightHaveEnded
      modifies this`entryPos
      ensures entryPos + spaces + 1 == old(entryPos) && entryBuf[..entryPos] == Unquoted(old(Current())).entry
    {
      entryPos := entryPos - (spaces + 1);
    }

    /** The case FIELD_MIGHT_HAVE_ENDED. */
    method QuoteChar(c: Byte) returns (ok: bool)
      requires Valid() && Room() && phase == MightHaveEnded
      modifies this`entryPos, this`phase, this`quoted, this`spaces, this`calls, entryBuf
      ensures if ok then Does(AfterQuote(cfg, old(Current()), c))
              else AfterQuote(cfg, old(Current()), c).Strict? && Valid() && Current() == old(Current()) && calls == old(calls)
    {
      if c == cfg.delim {
        DropQuote();
        SubmitFieldNow();
      } else if cfg.isTerm(c) {
        DropQuote();
        SubmitBoth(c);
      } else if cfg.isSpace(c) {
        PutInEntry(c);
        spaces := spaces + 1;
      } else if c == cfg.quote {
        if spaces > 0 {
          if cfg.options.strict {
            return false;
          }
          spaces := 0;
          PutInEntry(c);
        } else {
          phase := FieldBegun;
        }
      } else {
        if cfg.options.strict {
          return false;
        }
        phase := FieldBegun;
        spaces := 0;
        PutInEntry(c);
      }
      return true;
    }

    method ParseChar(c: Byte) returns (ok: bool)
      requires Valid() && Room()
      modifies this`entryPos, this`phase, this`quoted, this`spaces, this`calls, entryBuf
      ensures if ok then Does(Step(cfg, old(Current()), c))
              else Step(cfg, old(Current()), c).Strict? && Valid() && Current() == old(Current()) && calls == old(calls)
    {
      match phase
      case FieldBegun =>
        ok := FieldChar(c);
      case MightHaveEnded =>
        ok := QuoteChar(c);
      case _ =>
        StartChar(c);
        ok := true;
    }

    /** Grow the buffer when it is full. */
    method EnsureRoom() returns (ok: bool)
      requires Valid() && entryBuf.Length > 0
      modifies this`entryBuf, this`status
      ensures Valid() && Current() == old(Current()) && entryBuf.Length > 0
      ensures ok ==> Room() && status == old(status) && (entryBuf == old(entryBuf) || fresh(entryBuf))
      ensures !ok ==> entryBuf == old(entryBuf) && (status == TooBig || status == NoMemory)
    {
      ok := true;
      if entryPos == (if cfg.options.appendNull then entryBuf.Length - 1 else entryBuf.Length) {
        var grown, _ := IncreaseBuffer();
        ok := grown;
      }
    }

    /** One round of the loop of csv_parse. */
    method ParseByte(c: Byte) returns (ok: bool)
      requires Valid() && entryBuf.Length > 0
      modifies this, entryBuf
      ensures Valid() && entryBuf.Length > 0 && (entryBuf == old(entryBuf) || fresh(entryBuf))
      ensures ok ==> var r := Step(cfg, old(Current()), c);
                r.Ok? && Current() == r.state && calls == old(calls) + r.events && status == old(status)
      ensures !ok ==> Current() == old(Current()) && calls == old(calls) && status != Success
      ensures !ok && status == ParseError ==> Step(cfg, Current(), c).Strict?
    {
      ok := EnsureRoom();
      if ok {
        ok := ParseChar(c);
        if !ok {
          status := ParseError;
        }
      }
    }

    /** csv_parse: the callbacks and the state are those of the state machine on the bytes processed; it
        stops early only when strict mode rejects the next byte or memory runs out. */
    method Parse(s: seq<Byte>) returns (pos: nat)
      requires Valid()
      modifies this, entryBuf
      ensures Valid() && pos <= |s|
      ensures var r := Run(cfg, old(Current()), s[..pos]);
              r.Ok? && Current() == r.state && calls == old(calls) + r.events
      ensures pos == |s| ==> status == old(status)
      ensures pos < |s| ==> status != Success && (status == ParseError ==> Step(cfg, Current(), s[pos]).Strict?)
      ensures entryBuf == old(entryBuf) || fresh(entryBuf)
    {
      pos := 0;
      if entryBuf.Length == 0 && pos < |s| {
        var ok, _ := IncreaseBuffer();
        if !ok {
          return;
        }
      }
      while pos < |s|
        invariant pos <= |s| && Valid() && (|s| > 0 ==> entryBuf.Length > 0) && status == old(status)
        invariant entryBuf == old(entryBuf) || fresh(entryBuf)
        invariant Reached(cfg, old(Current()), s[..pos], Current(), old(calls), calls)
      {
        ghost var before, already := Current(), calls;
        var ok := ParseByte(s[pos]);
        if !ok {
          return;
        }
        ReachedNext(cfg, old(Current()), s, pos, before, old(calls), already);
        pos := pos + 1;
      }
    }

    /** csv_fini: the state machine's last word, after which the parser is as new. */
    method Fini() returns (ok: bool)
      requires Valid()
      modifies this, entryBuf
      ensures Valid() && ok == Finish(cfg, old(Current())).Ok?
      ensures ok ==> Current() == Initial && calls == old(calls) + Finish(cfg, old(Current())).events && status == Success
      ensures !ok ==> Current() == old(Current()) && calls == old(calls) && status == ParseError
    {
      if phase == FieldBegun && quoted && cfg.options.strict && cfg.options.strictFini {
        status := ParseError;
        return false;
      }
      match phase {
        case MightHaveEnded =>
          DropQuote();
          SubmitBoth(-1);
        case RowNotBegun =>
        case _ =>
          SubmitBoth(-1);
      }
      spaces, quoted, entryPos, status := 0, false, 0, Success;
      phase := RowNotBegun;
      return true;
    }
  }

  /** From state st the bytes s lead to now, with the callbacks in between. */
  ghost predicate Reached(cfg: Config, st: State, s: seq<Byte>, now: State, before: seq<Event>, calls: seq<Event>) {
    Sound(st) && var r := Run(cfg, st, s); r.Ok? && now == r.state && calls == before + r.events
  }

  lemma ReachedNext(cfg: Config, st: State, s: seq<Byte>, pos: nat, mid: State, before: seq<Event>, already: seq<Event>)
    requires pos < |s| && Reached(cfg, st, s[..pos], mid, before, already) && Sound(mid) && Step(cfg, mid, s[pos]).Ok?
    ensures var r := Step(cfg, mid, s[pos]); Reached(cfg, st, s[..pos + 1], r.state, before, already + r.events)
  {
    var r := Step(cfg, mid, s[pos]);
    assert s[..pos + 1] == s[..pos] + [s[pos]];
    RunOne(cfg, st, s[..pos], s[pos]);
    var events := Run(cfg, st, s[..pos]).events;
    assert before + events + r.events == before + (events + r.events);
  }
}
