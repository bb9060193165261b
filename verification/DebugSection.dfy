/** The debug section of an artifact: its byte format, encoder and decoder. */
module DebugSection {
  import opened Common
  import opened Bytes
  import opened Utf8

  datatype DebugError = BadMagic | BadVersion | BadLength | BadText | BadTag | TrailingBytes

  type Result<T> = Outcome<T, DebugError>

  /** `path` and `text` hold the bytes of UTF-8 strings. */
  datatype DebugSource = DebugSource(path: Text, text: Text, syntax: Text)

  datatype DefinitionKind = Function | Class

  datatype DebugDefinition =
    DebugDefinition(kind: DefinitionKind, target: nat, source: nat, lo: nat, hi: nat, syntax: nat, origin: Text)

  datatype DebugFunction = DebugFunction(func: nat, source: nat, lo: nat, hi: nat)

  datatype DebugCodeOrigin = DebugCodeOrigin(func: nat, block: nat, instruction: nat, origin: Text)

  datatype DebugInfo = DebugInfo(
    sources: seq<DebugSource>,
    definitions: seq<DebugDefinition>,
    functions: seq<DebugFunction>,
    codeOrigins: seq<DebugCodeOrigin>)

  const EMPTY := DebugInfo([], [], [], [])
  const MAGIC: Text := [0x4C, 0x4D, 0x44, 0x42]
  const VERSION: u16 := 2

  // ------------------------------------------------------- the format

  // Every writer takes the bytes that follow, so a record is written in front
  // of its tail and parsing a record leaves exactly that tail.

  type Writer<!T> = (T, Text) -> Text

  function Word(x: nat, tail: Text): Text {
    Le(x, 4) + tail
  }

  function Field(b: Text, tail: Text): Text {
    Word(|b|, b + tail)
  }

  function SourceBytes(s: DebugSource, tail: Text): Text {
    Field(s.path, Field(s.text, Field(s.syntax, tail)))
  }

  function KindByte(k: DefinitionKind): byte {
    match k case Function => 0 case Class => 1
  }

  function DefinitionBytes(d: DebugDefinition, tail: Text): Text {
    [KindByte(d.kind)] + Word(d.target, Word(d.source, Word(d.lo, Word(d.hi, Word(d.syntax, d.origin + tail)))))
  }

  function FunctionBytes(f: DebugFunction, tail: Text): Text {
    Word(f.func, Word(f.source, Word(f.lo, Word(f.hi, tail))))
  }

  function OriginBytes(o: DebugCodeOrigin, tail: Text): Text {
    Word(o.func, Word(o.block, Word(o.instruction, o.origin + tail)))
  }

  function Many<T>(write: Writer<T>, items: seq<T>, tail: Text): Text {
    if items == [] then tail else write(items[0], Many(write, items[1..], tail))
  }

  function Section<T>(write: Writer<T>, items: seq<T>, tail: Text): Text {
    Word(|items|, Many(write, items, tail))
  }

  function Body(info: DebugInfo, tail: Text): Text {
    Section(SourceBytes, info.sources,
      Section(DefinitionBytes, info.definitions,
        Section(FunctionBytes, info.functions,
          Section(OriginBytes, info.codeOrigins, tail))))
  }

  /** The bytes of a nonempty section. */
  function Full(info: DebugInfo, tail: Text): Text {
    MAGIC + (Le16(VERSION) + Body(info, tail))
  }

  /** What `encode` writes: the empty section takes no bytes. */
  function EncodeSpec(info: DebugInfo): Text {
    if info == EMPTY then [] else Full(info, [])
  }

  // ------------------------------------------------------ representable

  /** What the field types of the source guarantee. */
  ghost predicate TypedSource(s: DebugSource) {
    IsUtf8(s.path) && IsUtf8(s.text)
  }

  ghost predicate TypedDefinition(d: DebugDefinition) {
    && d.target < U32_LIMIT && d.source < U32_LIMIT && d.lo < U32_LIMIT && d.hi < U32_LIMIT && d.syntax < U32_LIMIT
    && |d.origin| == 32
  }

  ghost predicate TypedFunction(f: DebugFunction) {
    f.func < U32_LIMIT && f.source < U32_LIMIT && f.lo < U32_LIMIT && f.hi < U32_LIMIT
  }

  ghost predicate TypedOrigin(o: DebugCodeOrigin) {
    o.func < U32_LIMIT && o.block < U32_LIMIT && o.instruction < U32_LIMIT && |o.origin| == 32
  }

  ghost predicate Typed(info: DebugInfo) {
    && (forall i :: 0 <= i < |info.sources| ==> TypedSource(info.sources[i]))
    && (forall i :: 0 <= i < |info.definitions| ==> TypedDefinition(info.definitions[i]))
    && (forall i :: 0 <= i < |info.functions| ==> TypedFunction(info.functions[i]))
    && (forall i :: 0 <= i < |info.codeOrigins| ==> TypedOrigin(info.codeOrigins[i]))
  }

  /** Every stored length fits its 32-bit field. */
  ghost predicate SourceFits(s: DebugSource) {
    |s.path| < U32_LIMIT && |s.text| < U32_LIMIT && |s.syntax| < U32_LIMIT
  }

  ghost predicate Fits(info: DebugInfo) {
    && |info.sources| < U32_LIMIT && |info.definitions| < U32_LIMIT
    && |info.functions| < U32_LIMIT && |info.codeOrigins| < U32_LIMIT
    && forall i :: 0 <= i < |info.sources| ==> SourceFits(info.sources[i])
  }

  // --------------------------------------------------------- parsing

  /** A parse of the front of the input, with what is left. */
  datatype Parsed<T> = Yes(value: T, rest: Text) | No(error: DebugError) {
    predicate IsFailure() { No? }
    function PropagateFailure<U>(): Parsed<U>
      requires No?
    {
      No(error)
    }
    function Extract(): (T, Text)
      requires Yes?
    {
      (value, rest)
    }
  }

  function PTake(b: Text, n: nat): Parsed<Text> {
    if n <= |b| then Yes(b[..n], b[n..]) else No(BadLength)
  }

  function PU16(b: Text): Parsed<nat> {
    if 2 <= |b| then Yes(FromLe16(b[..2]), b[2..]) else No(BadLength)
  }

  function PU32(b: Text): Parsed<nat> {
    if 4 <= |b| then Yes(FromLe32(b[..4]), b[4..]) else No(BadLength)
  }

  /** A count, refused when even the smallest items could not follow. */
  function PCount(b: Text, itemBytes: nat): Parsed<nat>
    requires itemBytes > 0
  {
    var (n, rest) :- PU32(b);
    if n > |rest| / itemBytes then No(BadLength) else Yes(n, rest)
  }

  function PBytes(b: Text): Parsed<Text> {
    var (n, rest) :- PU32(b);
    PTake(rest, n)
  }

  function PString(b: Text): Parsed<Text> {
    var (s, rest) :- PBytes(b);
    if IsUtf8(s) then Yes(s, rest) else No(BadText)
  }

  function PSource(b: Text): Parsed<DebugSource> {
    var (path, b1) :- PString(b);
    var (text, b2) :- PString(b1);
    var (syntax, rest) :- PBytes(b2);
    Yes(DebugSource(path, text, syntax), rest)
  }

  function PKind(b: Text): Parsed<DefinitionKind> {
    var (tag, rest) :- PTake(b, 1);
    if tag[0] == 0 then Yes(Function, rest) else if tag[0] == 1 then Yes(Class, rest) else No(BadTag)
  }

  function PDefinition(b: Text): Parsed<DebugDefinition> {
    var (kind, b1) :- PKind(b);
    var (target, b2) :- PU32(b1);
    var (source, b3) :- PU32(b2);
    var (lo, b4) :- PU32(b3);
    var (hi, b5) :- PU32(b4);
    var (syntax, b6) :- PU32(b5);
    var (origin, rest) :- PTake(b6, 32);
    Yes(DebugDefinition(kind, target, source, lo, hi, syntax, origin), rest)
  }

  function PFunction(b: Text): Parsed<DebugFunction> {
    var (func, b1) :- PU32(b);
    var (source, b2) :- PU32(b1);
    var (lo, b3) :- PU32(b2);
    var (hi, rest) :- PU32(b3);
    Yes(DebugFunction(func, source, lo, hi), rest)
  }

  function POrigin(b: Text): Parsed<DebugCodeOrigin> {
    var (func, b1) :- PU32(b);
    var (block, b2) :- PU32(b1);
    var (instruction, b3) :- PU32(b2);
    var (origin, rest) :- PTake(b3, 32);
    Yes(DebugCodeOrigin(func, block, instruction, origin), rest)
  }

  type Reader<T> = Text -> Parsed<T>

  function PMany<T>(read: Reader<T>, b: Text, n: nat): Parsed<seq<T>>
    decreases n
  {
    if n == 0 then Yes([], b)
    else
      var (x, b1) :- read(b);
      var (xs, rest) :- PMany(read, b1, n - 1);
      Yes([x] + xs, rest)
  }

  function PSection<T>(read: Reader<T>, b: Text, itemBytes: nat): Parsed<seq<T>>
    requires itemBytes > 0
  {
    var (n, b1) :- PCount(b, itemBytes);
    PMany(read, b1, n)
  }

  function PBody(b: Text): Parsed<DebugInfo> {
    var (sources, b1) :- PSection(PSource, b, 12);
    var (definitions, b2) :- PSection(PDefinition, b1, 53);
    var (functions, b3) :- PSection(PFunction, b2, 16);
    var (codeOrigins, rest) :- PSection(POrigin, b3, 44);
    Yes(DebugInfo(sources, definitions, functions, codeOrigins), rest)
  }

  function PFull(b: Text): Parsed<DebugInfo> {
    var (magic, b1) :- PTake(b, 4);
    if magic != MAGIC then No(BadMagic)
    else
      var (version, b2) :- PU16(b1);
      if version != VERSION then No(BadVersion) else PBody(b2)
  }

  /** What `decode` answers. */
  function DecodeSpec(b: Text): Result<DebugInfo> {
    if b == [] then Ok(EMPTY)
    else
      match PFull(b)
      case No(e) => Err(e)
      case Yes(info, rest) => if rest != [] then Err(TrailingBytes) else Ok(info)
  }

  // ------------------------------------------------- reading what was written

  lemma WordRead(x: nat, tail: Text)
    requires x < U32_LIMIT
    ensures PU32(Word(x, tail)) == Yes(x, tail)
  {
    Le32RoundTrip(x);
    assert Word(x, tail)[..4] == Le32(x) && Word(x, tail)[4..] == tail;
  }

  lemma TakeRead(b: Text, tail: Text)
    ensures PTake(b + tail, |b|) == Yes(b, tail)
  {
    assert (b + tail)[..|b|] == b && (b + tail)[|b|..] == tail;
  }

  lemma FieldRead(b: Text, tail: Text)
    requires |b| < U32_LIMIT
    ensures PBytes(Field(b, tail)) == Yes(b, tail)
  {
    WordRead(|b|, b + tail);
    TakeRead(b, tail);
  }

  lemma SourceRead(s: DebugSource, tail: Text)
    requires TypedSource(s) && SourceFits(s)
    ensures PSource(SourceBytes(s, tail)) == Yes(s, tail)
  {
    hide PBytes, Field;
    FieldRead(s.syntax, tail);
    FieldRead(s.text, Field(s.syntax, tail));
    FieldRead(s.path, Field(s.text, Field(s.syntax, tail)));
  }

  lemma DefinitionRead(d: DebugDefinition, tail: Text)
    requires TypedDefinition(d)
    ensures PDefinition(DefinitionBytes(d, tail)) == Yes(d, tail)
  {
    hide PU32, PTake, Word;
    var t6 := d.origin + tail;
    var t5 := Word(d.syntax, t6);
    var t4 := Word(d.hi, t5);
    var t3 := Word(d.lo, t4);
    var t2 := Word(d.source, t3);
    TakeRead([KindByte(d.kind)], Word(d.target, t2));
    WordRead(d.target, t2);
    WordRead(d.source, t3);
    WordRead(d.lo, t4);
    WordRead(d.hi, t5);
    WordRead(d.syntax, t6);
    TakeRead(d.origin, tail);
  }

  lemma FunctionRead(f: DebugFunction, tail: Text)
    requires TypedFunction(f)
    ensures PFunction(FunctionBytes(f, tail)) == Yes(f, tail)
  {
    hide PU32, Word;
    WordRead(f.hi, tail);
    WordRead(f.lo, Word(f.hi, tail));
    WordRead(f.source, Word(f.lo, Word(f.hi, tail)));
    WordRead(f.func, Word(f.source, Word(f.lo, Word(f.hi, tail))));
  }

  lemma OriginRead(o: DebugCodeOrigin, tail: Text)
    requires TypedOrigin(o)
    ensures POrigin(OriginBytes(o, tail)) == Yes(o, tail)
  {
    hide PU32, PTake, Word;
    TakeRead(o.origin, tail);
    WordRead(o.instruction, o.origin + tail);
    WordRead(o.block, Word(o.instruction, o.origin + tail));
    WordRead(o.func, Word(o.block, Word(o.instruction, o.origin + tail)));
  }

  /** The reader undoes the writer on `items`, and no item is shorter than
      the declared minimum. */
  ghost predicate Undoes<T(!new)>(read: Reader<T>, write: Writer<T>, itemBytes: nat, items: seq<T>) {
    forall i, tail :: 0 <= i < |items| ==>
      (read(write(items[i], tail)) == Yes(items[i], tail) && |write(items[i], tail)| >= itemBytes + |tail|)
  }

  lemma {:induction false} ManyRead<T(!new)>(read: Reader<T>, write: Writer<T>, itemBytes: nat, items: seq<T>,
                                      tail: Text)
    requires Undoes(read, write, itemBytes, items)
    ensures PMany(read, Many(write, items, tail), |items|) == Yes(items, tail)
    ensures |Many(write, items, tail)| >= |items| * itemBytes + |tail|
    decreases |items|
  {
    if items != [] {
      assert Undoes(read, write, itemBytes, items[1..]) by {
        forall i, t | 0 <= i < |items[1..]|
          ensures read(write(items[1..][i], t)) == Yes(items[1..][i], t) && |write(items[1..][i], t)| >= itemBytes + |t|
        {
          assert items[1..][i] == items[i + 1];
        }
      }
      ManyRead(read, write, itemBytes, items[1..], tail);
      var rest := Many(write, items[1..], tail);
      assert read(write(items[0], rest)) == Yes(items[0], rest);
      assert items == [items[0]] + items[1..];
      MinimumStep(|items|, itemBytes);
    }
  }

  lemma MinimumStep(n: nat, itemBytes: nat)
    requires n > 0
    ensures n * itemBytes == (n - 1) * itemBytes + itemBytes
  {
  }

  /** A genuine count passes the guard. */
  lemma CountGuard(n: nat, itemBytes: nat, available: nat)
    requires itemBytes > 0 && available >= n * itemBytes
    ensures n <= available / itemBytes
  {
    if n > available / itemBytes {
      assert available / itemBytes + 1 <= n;
      MultiplyMonotone(available / itemBytes + 1, n, itemBytes);
    }
  }

  lemma SectionRead<T(!new)>(read: Reader<T>, write: Writer<T>, itemBytes: nat, items: seq<T>, tail: Text)
    requires Undoes(read, write, itemBytes, items) && itemBytes > 0 && |items| < U32_LIMIT
    ensures PSection(read, Section(write, items, tail), itemBytes) == Yes(items, tail)
  {
    hide PU32, Word;
    ManyRead(read, write, itemBytes, items, tail);
    WordRead(|items|, Many(write, items, tail));
    CountGuard(|items|, itemBytes, |Many(write, items, tail)|);
  }

  lemma AllUndo(info: DebugInfo)
    requires Typed(info) && Fits(info)
    ensures Undoes(PSource, SourceBytes, 12, info.sources)
    ensures Undoes(PDefinition, DefinitionBytes, 53, info.definitions)
    ensures Undoes(PFunction, FunctionBytes, 16, info.functions)
    ensures Undoes(POrigin, OriginBytes, 44, info.codeOrigins)
  {
    SourcesUndo(info.sources);
    DefinitionsUndo(info.definitions);
    FunctionsUndo(info.functions);
    OriginsUndo(info.codeOrigins);
  }

  lemma SourcesUndo(items: seq<DebugSource>)
    requires forall i :: 0 <= i < |items| ==> TypedSource(items[i]) && SourceFits(items[i])
    ensures Undoes(PSource, SourceBytes, 12, items)
  {
    hide PSource;
    forall i, tail | 0 <= i < |items| ensures PSource(SourceBytes(items[i], tail)) == Yes(items[i], tail) {
      SourceRead(items[i], tail);
    }
  }

  lemma DefinitionsUndo(items: seq<DebugDefinition>)
    requires forall i :: 0 <= i < |items| ==> TypedDefinition(items[i])
    ensures Undoes(PDefinition, DefinitionBytes, 53, items)
  {
    hide PDefinition;
    forall i, tail | 0 <= i < |items| ensures PDefinition(DefinitionBytes(items[i], tail)) == Yes(items[i], tail) {
      DefinitionRead(items[i], tail);
    }
  }

  lemma FunctionsUndo(items: seq<DebugFunction>)
    requires forall i :: 0 <= i < |items| ==> TypedFunction(items[i])
    ensures Undoes(PFunction, FunctionBytes, 16, items)
  {
    hide PFunction;
    forall i, tail | 0 <= i < |items| ensures PFunction(FunctionBytes(items[i], tail)) == Yes(items[i], tail) {
      FunctionRead(items[i], tail);
    }
  }

  lemma OriginsUndo(items: seq<DebugCodeOrigin>)
    requires forall i :: 0 <= i < |items| ==> TypedOrigin(items[i])
    ensures Undoes(POrigin, OriginBytes, 44, items)
  {
    hide POrigin;
    forall i, tail | 0 <= i < |items| ensures POrigin(OriginBytes(items[i], tail)) == Yes(items[i], tail) {
      OriginRead(items[i], tail);
    }
  }

  lemma FullRead(info: DebugInfo, tail: Text)
    requires Typed(info) && Fits(info)
    ensures PFull(Full(info, tail)) == Yes(info, tail)
  {
    hide PSection, Section, Typed, Fits;
    AllUndo(info);
    assert && |info.sources| < U32_LIMIT && |info.definitions| < U32_LIMIT
           && |info.functions| < U32_LIMIT && |info.codeOrigins| < U32_LIMIT by {
      FitsCounts(info);
    }
    var s4 := Section(OriginBytes, info.codeOrigins, tail);
    var s3 := Section(FunctionBytes, info.functions, s4);
    var s2 := Section(DefinitionBytes, info.definitions, s3);
    SectionRead(POrigin, OriginBytes, 44, info.codeOrigins, tail);
    SectionRead(PFunction, FunctionBytes, 16, info.functions, s4);
    SectionRead(PDefinition, DefinitionBytes, 53, info.definitions, s3);
    SectionRead(PSource, SourceBytes, 12, info.sources, s2);
    TakeRead(MAGIC, Le16(VERSION) + Body(info, tail));
    TakeRead(Le16(VERSION), Body(info, tail));
    Le16RoundTrip(VERSION);
  }

  lemma FitsCounts(info: DebugInfo)
    requires Fits(info)
    ensures |info.sources| < U32_LIMIT && |info.definitions| < U32_LIMIT && |info.functions| < U32_LIMIT
    ensures |info.codeOrigins| < U32_LIMIT
  {
  }

  // ------------------------------------------------ writing what was read

  lemma WordWritten(b: Text)
    requires PU32(b).Yes?
    ensures b == Word(PU32(b).value, PU32(b).rest) && PU32(b).value < U32_LIMIT
  {
    Le32Unread(b[..4]);
    assert b == b[..4] + b[4..];
  }

  lemma FieldWritten(b: Text)
    requires PBytes(b).Yes?
    ensures b == Field(PBytes(b).value, PBytes(b).rest) && |PBytes(b).value| < U32_LIMIT
  {
    WordWritten(b);
    var rest := PU32(b).rest;
    assert rest == rest[..PU32(b).value] + rest[PU32(b).value..];
  }

  lemma SourceWritten(b: Text)
    requires PSource(b).Yes?
    ensures b == SourceBytes(PSource(b).value, PSource(b).rest)
    ensures TypedSource(PSource(b).value) && SourceFits(PSource(b).value)
  {
    hide PBytes, Field;
    FieldWritten(b);
    var b1 := PBytes(b).rest;
    FieldWritten(b1);
    FieldWritten(PBytes(b1).rest);
  }

  lemma TakeWritten(b: Text, n: nat)
    requires PTake(b, n).Yes?
    ensures b == PTake(b, n).value + PTake(b, n).rest && |PTake(b, n).value| == n
  {
  }

  lemma DefinitionWritten(b: Text)
    requires PDefinition(b).Yes?
    ensures b == DefinitionBytes(PDefinition(b).value, PDefinition(b).rest) && TypedDefinition(PDefinition(b).value)
  {
    hide PU32, Word, PTake;
    TakeWritten(b, 1);
    var b1 := PKind(b).rest;
    assert PTake(b, 1).value == [KindByte(PKind(b).value)];
    WordWritten(b1);
    var b2 := PU32(b1).rest;
    WordWritten(b2);
    var b3 := PU32(b2).rest;
    WordWritten(b3);
    var b4 := PU32(b3).rest;
    WordWritten(b4);
    var b5 := PU32(b4).rest;
    WordWritten(b5);
    TakeWritten(PU32(b5).rest, 32);
  }

  lemma FunctionWritten(b: Text)
    requires PFunction(b).Yes?
    ensures b == FunctionBytes(PFunction(b).value, PFunction(b).rest) && TypedFunction(PFunction(b).value)
  {
    hide PU32, Word;
    WordWritten(b);
    var b1 := PU32(b).rest;
    WordWritten(b1);
    var b2 := PU32(b1).rest;
    WordWritten(b2);
    WordWritten(PU32(b2).rest);
  }

  lemma OriginWritten(b: Text)
    requires POrigin(b).Yes?
    ensures b == OriginBytes(POrigin(b).value, POrigin(b).rest) && TypedOrigin(POrigin(b).value)
  {
    hide PU32, Word, PTake;
    WordWritten(b);
    var b1 := PU32(b).rest;
    WordWritten(b1);
    var b2 := PU32(b1).rest;
    WordWritten(b2);
    TakeWritten(PU32(b2).rest, 32);
  }

  /** Whatever the reader accepts is a written, valid item and its tail. */
  ghost predicate Faithful<T(!new)>(read: Reader<T>, write: Writer<T>, valid: T -> bool) {
    forall b :: read(b).Yes? ==> (b == write(read(b).value, read(b).rest) && valid(read(b).value))
  }

  lemma {:induction false} ManyWritten<T(!new)>(read: Reader<T>, write: Writer<T>, valid: T -> bool, b: Text, n: nat)
    requires Faithful(read, write, valid) && PMany(read, b, n).Yes?
    ensures var r := PMany(read, b, n);
            && |r.value| == n && b == Many(write, r.value, r.rest)
            && forall i :: 0 <= i < n ==> valid(r.value[i])
    decreases n
  {
    if n > 0 {
      ManyWritten(read, write, valid, read(b).rest, n - 1);
      var xs := PMany(read, read(b).rest, n - 1).value;
      assert ([read(b).value] + xs)[1..] == xs;
    }
  }

  lemma SectionWritten<T(!new)>(read: Reader<T>, write: Writer<T>, valid: T -> bool, b: Text, itemBytes: nat)
    requires Faithful(read, write, valid) && itemBytes > 0 && PSection(read, b, itemBytes).Yes?
    ensures var r := PSection(read, b, itemBytes);
            && |r.value| < U32_LIMIT && b == Section(write, r.value, r.rest)
            && forall i :: 0 <= i < |r.value| ==> valid(r.value[i])
  {
    hide PU32, Word, PMany;
    WordWritten(b);
    ManyWritten(read, write, valid, PCount(b, itemBytes).rest, PCount(b, itemBytes).value);
  }

  lemma AllFaithful()
    ensures Faithful(PSource, SourceBytes, s => TypedSource(s) && SourceFits(s))
    ensures Faithful(PDefinition, DefinitionBytes, d => TypedDefinition(d))
    ensures Faithful(PFunction, FunctionBytes, f => TypedFunction(f))
    ensures Faithful(POrigin, OriginBytes, o => TypedOrigin(o))
  {
    hide PSource, PDefinition, PFunction, POrigin, SourceBytes, DefinitionBytes, FunctionBytes, OriginBytes;
    forall b | PSource(b).Yes?
      ensures b == SourceBytes(PSource(b).value, PSource(b).rest) && TypedSource(PSource(b).value)
      ensures SourceFits(PSource(b).value)
    {
      SourceWritten(b);
    }
    forall b | PDefinition(b).Yes?
      ensures b == DefinitionBytes(PDefinition(b).value, PDefinition(b).rest) && TypedDefinition(PDefinition(b).value)
    {
      DefinitionWritten(b);
    }
    forall b | PFunction(b).Yes?
      ensures b == FunctionBytes(PFunction(b).value, PFunction(b).rest) && TypedFunction(PFunction(b).value)
    {
      FunctionWritten(b);
    }
    forall b | POrigin(b).Yes?
      ensures b == OriginBytes(POrigin(b).value, POrigin(b).rest) && TypedOrigin(POrigin(b).value)
    {
      OriginWritten(b);
    }
  }

  lemma BodyWritten(b: Text)
    requires PBody(b).Yes?
    ensures var r := PBody(b); b == Body(r.value, r.rest) && Typed(r.value) && Fits(r.value)
  {
    hide PSection, Section, TypedSource, TypedDefinition, TypedFunction, TypedOrigin, SourceFits;
    AllFaithful();
    SectionWritten(PSource, SourceBytes, s => TypedSource(s) && SourceFits(s), b, 12);
    var b1 := PSection(PSource, b, 12).rest;
    SectionWritten(PDefinition, DefinitionBytes, d => TypedDefinition(d), b1, 53);
    var b2 := PSection(PDefinition, b1, 53).rest;
    SectionWritten(PFunction, FunctionBytes, f => TypedFunction(f), b2, 16);
    var b3 := PSection(PFunction, b2, 16).rest;
    SectionWritten(POrigin, OriginBytes, o => TypedOrigin(o), b3, 44);
  }

  lemma FullWritten(b: Text)
    requires PFull(b).Yes?
    ensures var r := PFull(b); b == Full(r.value, r.rest) && Typed(r.value) && Fits(r.value)
  {
    hide PBody, Body, Typed, Fits;
    TakeWritten(b, 4);
    var b1 := b[4..];
    assert b1 == b1[..2] + b1[2..];
    Le16Unread(b1[..2]);
    BodyWritten(b1[2..]);
  }

  // ------------------------------------------------------------- theorems

  /** Decoding an encoded section gives it back exactly when every stored
      length fits its 32-bit field. */
  lemma DecodeEncode(info: DebugInfo)
    requires Typed(info)
    ensures DecodeSpec(EncodeSpec(info)) == Ok(info) <==> Fits(info)
  {
    hide Body, PBody, Typed;
    if info != EMPTY {
      if Fits(info) { FullRead(info, []); }
      if DecodeSpec(EncodeSpec(info)) == Ok(info) { FullWritten(Full(info, [])); }
    }
  }

  /** A section that is not empty begins with `LMDB`, version 2 and its number
      of sources. */
  lemma EncodedFront(info: DebugInfo)
    ensures info == DebugInfo([], [], [], []) <==> EncodeSpec(info) == []
    ensures EncodeSpec(info) != [] ==>
              && |EncodeSpec(info)| >= 10
              && EncodeSpec(info)[..10] == [0x4C, 0x4D, 0x44, 0x42, 2, 0] + Le(|info.sources|, 4)
  {
    hide Many;
    assert Le16(2) == [2, 0] by { assert Digit(2, 1) == Digit(0, 0); }
  }

  /** Whatever decodes is the encoding of what it decodes to, except that
      the empty section may also be spelled out. */
  lemma DecodedIsEncoded(b: Text)
    requires DecodeSpec(b).Ok? && b != []
    ensures b == Full(DecodeSpec(b).value, []) && Typed(DecodeSpec(b).value) && Fits(DecodeSpec(b).value)
  {
    FullWritten(b);
  }

  lemma {:induction false} ManyTail<T(!new)>(write: Writer<T>, items: seq<T>, tail: Text)
    requires forall x, t :: write(x, t) == write(x, []) + t
    ensures Many(write, items, tail) == Many(write, items, []) + tail
    decreases |items|
  {
    if items == [] {
      assert [] + tail == tail;
    } else {
      ManyTail(write, items[1..], tail);
      var rest := Many(write, items[1..], []);
      assert write(items[0], rest + tail) == write(items[0], []) + (rest + tail);
      assert write(items[0], rest) == write(items[0], []) + rest;
      assert write(items[0], []) + (rest + tail) == (write(items[0], []) + rest) + tail;
    }
  }

  lemma WordTail(x: nat, b: Text, tail: Text)
    ensures Word(x, b + tail) == Word(x, b) + tail
  {
    assert Le(x, 4) + (b + tail) == (Le(x, 4) + b) + tail;
  }

  lemma FieldTail(x: Text, b: Text, tail: Text)
    ensures Field(x, b + tail) == Field(x, b) + tail
  {
    assert x + (b + tail) == (x + b) + tail;
    WordTail(|x|, x + b, tail);
  }

  lemma SourceTail(s: DebugSource, tail: Text)
    ensures SourceBytes(s, tail) == SourceBytes(s, []) + tail
  {
    hide Field;
    assert [] + tail == tail;
    FieldTail(s.syntax, [], tail);
    FieldTail(s.text, Field(s.syntax, []), tail);
    FieldTail(s.path, Field(s.text, Field(s.syntax, [])), tail);
  }

  lemma DefinitionTail(d: DebugDefinition, tail: Text)
    ensures DefinitionBytes(d, tail) == DefinitionBytes(d, []) + tail
  {
    hide Word;
    var t6 := d.origin + [];
    assert d.origin + tail == t6 + tail;
    var t5 := Word(d.syntax, t6);
    var t4 := Word(d.hi, t5);
    var t3 := Word(d.lo, t4);
    var t2 := Word(d.source, t3);
    var t1 := Word(d.target, t2);
    WordTail(d.syntax, t6, tail);
    WordTail(d.hi, t5, tail);
    WordTail(d.lo, t4, tail);
    WordTail(d.source, t3, tail);
    WordTail(d.target, t2, tail);
    assert [KindByte(d.kind)] + (t1 + tail) == ([KindByte(d.kind)] + t1) + tail;
  }

  lemma FunctionTail(f: DebugFunction, tail: Text)
    ensures FunctionBytes(f, tail) == FunctionBytes(f, []) + tail
  {
    hide Word;
    assert [] + tail == tail;
    var t3 := Word(f.hi, []);
    var t2 := Word(f.lo, t3);
    WordTail(f.hi, [], tail);
    WordTail(f.lo, t3, tail);
    WordTail(f.source, t2, tail);
    WordTail(f.func, Word(f.source, t2), tail);
  }

  lemma OriginTail(o: DebugCodeOrigin, tail: Text)
    ensures OriginBytes(o, tail) == OriginBytes(o, []) + tail
  {
    hide Word;
    var t3 := o.origin + [];
    assert o.origin + tail == t3 + tail;
    var t2 := Word(o.instruction, t3);
    WordTail(o.instruction, t3, tail);
    WordTail(o.block, t2, tail);
    WordTail(o.func, Word(o.block, t2), tail);
  }

  lemma SectionTail<T(!new)>(write: Writer<T>, items: seq<T>, b: Text, tail: Text)
    requires forall x, t :: write(x, t) == write(x, []) + t
    ensures Section(write, items, b + tail) == Section(write, items, b) + tail
  {
    ManyTail(write, items, b + tail);
    ManyTail(write, items, b);
    assert Many(write, items, []) + (b + tail) == Many(write, items, b) + tail;
    WordTail(|items|, Many(write, items, b), tail);
  }

  lemma FullTail(info: DebugInfo, tail: Text)
    ensures Full(info, tail) == Full(info, []) + tail
  {
    hide Section, SourceBytes, DefinitionBytes, FunctionBytes, OriginBytes;
    assert [] + tail == tail;
    forall s, t ensures SourceBytes(s, t) == SourceBytes(s, []) + t { SourceTail(s, t); }
    forall d, t ensures DefinitionBytes(d, t) == DefinitionBytes(d, []) + t { DefinitionTail(d, t); }
    forall f, t ensures FunctionBytes(f, t) == FunctionBytes(f, []) + t { FunctionTail(f, t); }
    forall o, t ensures OriginBytes(o, t) == OriginBytes(o, []) + t { OriginTail(o, t); }
    var s4 := Section(OriginBytes, info.codeOrigins, []);
    var s3 := Section(FunctionBytes, info.functions, s4);
    var s2 := Section(DefinitionBytes, info.definitions, s3);
    SectionTail(OriginBytes, info.codeOrigins, [], tail);
    SectionTail(FunctionBytes, info.functions, s4, tail);
    SectionTail(DefinitionBytes, info.definitions, s3, tail);
    SectionTail(SourceBytes, info.sources, s2, tail);
    assert Body(info, tail) == Body(info, []) + tail;
    assert MAGIC + (Le16(VERSION) + (Body(info, []) + tail)) == (MAGIC + (Le16(VERSION) + Body(info, []))) + tail;
  }

  /** Every nonempty strict prefix of an encoding is refused. */
  lemma PrefixRefused(info: DebugInfo, n: nat)
    requires Typed(info) && Fits(info) && 0 < n < |EncodeSpec(info)|
    ensures DecodeSpec(EncodeSpec(info)[..n]).Err?
  {
    hide Full, PFull, Typed, Fits;
    var whole := EncodeSpec(info);
    var part := whole[..n];
    assert whole == part + whole[n..];
    if DecodeSpec(part).Ok? {
      var other := DecodeSpec(part).value;
      DecodedIsEncoded(part);
      FullTail(other, whole[n..]);
      FullRead(other, whole[n..]);
      FullRead(info, []);
    }
  }

  // -------------------------------------------------------------- encoder

  method WriteSources(out: Text, items: seq<DebugSource>, ghost tail: Text) returns (out': Text)
    ensures out' + tail == out + Section(SourceBytes, items, tail)
  {
    hide IsUtf8;
    out' := out + Le(|items|, 4);
    for i := 0 to |items|
      invariant out' + Many(SourceBytes, items[i..], tail) == out + Section(SourceBytes, items, tail)
    {
      ghost var rest := Many(SourceBytes, items[i + 1..], tail);
      assert items[i..][1..] == items[i + 1..];
      out' := WriteField(out', items[i].path, Field(items[i].text, Field(items[i].syntax, rest)));
      out' := WriteField(out', items[i].text, Field(items[i].syntax, rest));
      out' := WriteField(out', items[i].syntax, rest);
    }
  }

  method WriteWord(out: Text, x: nat, ghost tail: Text) returns (out': Text)
    ensures out' + tail == out + Word(x, tail)
  {
    out' := out + Le(x, 4);
  }

  method WriteField(out: Text, b: Text, ghost tail: Text) returns (out': Text)
    ensures out' + tail == out + Field(b, tail)
  {
    out' := out + Le(|b|, 4) + b;
  }

  method WriteDefinitions(out: Text, items: seq<DebugDefinition>, ghost tail: Text) returns (out': Text)
    ensures out' + tail == out + Section(DefinitionBytes, items, tail)
  {
    out' := WriteWord(out, |items|, Many(DefinitionBytes, items, tail));
    for i := 0 to |items|
      invariant out' + Many(DefinitionBytes, items[i..], tail) == out + Section(DefinitionBytes, items, tail)
    {
      hide Section;
      var d := items[i];
      ghost var t5 := d.origin + Many(DefinitionBytes, items[i + 1..], tail);
      ghost var t4 := Word(d.syntax, t5);
      ghost var t3 := Word(d.hi, t4);
      ghost var t2 := Word(d.lo, t3);
      ghost var t1 := Word(d.source, t2);
      assert items[i..][1..] == items[i + 1..];
      ghost var whole := out' + DefinitionBytes(d, Many(DefinitionBytes, items[i + 1..], tail));
      out' := out' + [KindByte(d.kind)];
      assert out' + Word(d.target, t1) == whole;
      out' := WriteWord(out', d.target, t1);
      out' := WriteWord(out', d.source, t2);
      out' := WriteWord(out', d.lo, t3);
      out' := WriteWord(out', d.hi, t4);
      out' := WriteWord(out', d.syntax, t5);
      out' := out' + d.origin;
      assert out' + Many(DefinitionBytes, items[i + 1..], tail) == whole;
    }
  }

  method WriteFunctions(out: Text, items: seq<DebugFunction>, ghost tail: Text) returns (out': Text)
    ensures out' + tail == out + Section(FunctionBytes, items, tail)
  {
    out' := WriteWord(out, |items|, Many(FunctionBytes, items, tail));
    for i := 0 to |items|
      invariant out' + Many(FunctionBytes, items[i..], tail) == out + Section(FunctionBytes, items, tail)
    {
      hide Section, Word;
      var f := items[i];
      ghost var t4 := Many(FunctionBytes, items[i + 1..], tail);
      ghost var t3 := Word(f.hi, t4);
      ghost var t2 := Word(f.lo, t3);
      ghost var t1 := Word(f.source, t2);
      assert items[i..][1..] == items[i + 1..];
      out' := WriteWord(out', f.func, t1);
      out' := WriteWord(out', f.source, t2);
      out' := WriteWord(out', f.lo, t3);
      out' := WriteWord(out', f.hi, t4);
    }
  }

  method WriteOrigins(out: Text, items: seq<DebugCodeOrigin>, ghost tail: Text) returns (out': Text)
    ensures out' + tail == out + Section(OriginBytes, items, tail)
  {
    out' := WriteWord(out, |items|, Many(OriginBytes, items, tail));
    for i := 0 to |items|
      invariant out' + Many(OriginBytes, items[i..], tail) == out + Section(OriginBytes, items, tail)
    {
      hide Section, Word;
      var o := items[i];
      ghost var rest := Many(OriginBytes, items[i + 1..], tail);
      ghost var t3 := o.origin + rest;
      ghost var t2 := Word(o.instruction, t3);
      ghost var t1 := Word(o.block, t2);
      assert items[i..][1..] == items[i + 1..];
      ghost var whole := out' + OriginBytes(o, rest);
      out' := WriteWord(out', o.func, t1);
      out' := WriteWord(out', o.block, t2);
      out' := WriteWord(out', o.instruction, t3);
      out' := out' + o.origin;
      assert out' + rest == whole;
    }
  }

  /** Encode one debug section. */
  method Encode(info: DebugInfo) returns (out: Text)
    ensures out == EncodeSpec(info)
  {
    if info.sources == [] && info.definitions == [] && info.functions == [] && info.codeOrigins == [] {
      return [];
    }
    hide Section;
    ghost var s4 := Section(OriginBytes, info.codeOrigins, []);
    ghost var s3 := Section(FunctionBytes, info.functions, s4);
    ghost var s2 := Section(DefinitionBytes, info.definitions, s3);
    out := MAGIC + Le16(VERSION);
    assert out + Body(info, []) == Full(info, []);
    out := WriteSources(out, info.sources, s2);
    out := WriteDefinitions(out, info.definitions, s3);
    out := WriteFunctions(out, info.functions, s4);
    out := WriteOrigins(out, info.codeOrigins, []);
    assert out + [] == out;
  }

  // -------------------------------------------------------------- decoder

  /** A method result that follows a parse: same value or error, and on
      success the cursor stands at what the parse left. */
  ghost predicate Follows<T>(p: Parsed<T>, r: Result<T>, rest: Text) {
    match p
    case Yes(v, rest') => r == Ok(v) && rest == rest'
    case No(e) => r == Err(e)
  }

  class Cursor {
    const bytes: Text
    var pos: nat

    ghost predicate Valid()
      reads this
    {
      pos <= |bytes|
    }

    ghost function Rest(): Text
      reads this
      requires Valid()
    {
      bytes[pos..]
    }

    constructor (bytes: Text)
      ensures Valid() && this.bytes == bytes && pos == 0
    {
      this.bytes, pos := bytes, 0;
    }

    method Take(len: nat) returns (r: Result<Text>)
      requires Valid()
      modifies this
      ensures Valid() && Follows(PTake(old(Rest()), len), r, Rest())
    {
      var end := pos + len;
      if end > |bytes| { return Err(BadLength); }
      assert bytes[pos..][..len] == bytes[pos..end] && bytes[pos..][len..] == bytes[end..];
      r := Ok(bytes[pos..end]);
      pos := end;
    }

    method U16() returns (r: Result<nat>)
      requires Valid()
      modifies this
      ensures Valid() && Follows(PU16(old(Rest())), r, Rest())
    {
      var value :- Take(2);
      r := Ok(FromLe16(value));
    }

    method U32() returns (r: Result<nat>)
      requires Valid()
      modifies this
      ensures Valid() && Follows(PU32(old(Rest())), r, Rest())
    {
      var value :- Take(4);
      r := Ok(FromLe32(value));
    }

    method Count(itemBytes: nat) returns (r: Result<nat>)
      requires Valid() && itemBytes > 0
      modifies this
      ensures Valid() && Follows(PCount(old(Rest()), itemBytes), r, Rest())
    {
      var count :- U32();
      if count > (|bytes| - pos) / itemBytes { return Err(BadLength); }
      r := Ok(count);
    }

    method BytesField() returns (r: Result<Text>)
      requires Valid()
      modifies this
      ensures Valid() && Follows(PBytes(old(Rest())), r, Rest())
    {
      var len :- U32();
      r := Take(len);
    }

    method String() returns (r: Result<Text>)
      requires Valid()
      modifies this
      ensures Valid() && Follows(PString(old(Rest())), r, Rest())
    {
      var text :- BytesField();
      if !IsUtf8(text) { return Err(BadText); }
      r := Ok(text);
    }

    method Source() returns (r: Result<DebugSource>)
      requires Valid()
      modifies this
      ensures Valid() && Follows(PSource(old(Rest())), r, Rest())
    {
      hide PString, PBytes;
      var path :- String();
      var text :- String();
      var syntax :- BytesField();
      r := Ok(DebugSource(path, text, syntax));
    }

    method Definition() returns (r: Result<DebugDefinition>)
      requires Valid()
      modifies this
      ensures Valid() && Follows(PDefinition(old(Rest())), r, Rest())
    {
      hide PU32;
      var tag :- Take(1);
      if tag[0] > 1 { return Err(BadTag); }
      var kind := if tag[0] == 0 then Function else Class;
      var target :- U32();
      var source :- U32();
      var lo :- U32();
      var hi :- U32();
      var syntax :- U32();
      var origin :- Take(32);
      r := Ok(DebugDefinition(kind, target, source, lo, hi, syntax, origin));
    }

    method FunctionMap() returns (r: Result<DebugFunction>)
      requires Valid()
      modifies this
      ensures Valid() && Follows(PFunction(old(Rest())), r, Rest())
    {
      hide PU32;
      var func :- U32();
      var source :- U32();
      var lo :- U32();
      var hi :- U32();
      r := Ok(DebugFunction(func, source, lo, hi));
    }

    method CodeOrigin() returns (r: Result<DebugCodeOrigin>)
      requires Valid()
      modifies this
      ensures Valid() && Follows(POrigin(old(Rest())), r, Rest())
    {
      hide PU32;
      var func :- U32();
      var block :- U32();
      var instruction :- U32();
      var origin :- Take(32);
      r := Ok(DebugCodeOrigin(func, block, instruction, origin));
    }

    method Sources() returns (r: Result<seq<DebugSource>>)
      requires Valid()
      modifies this
      ensures Valid() && Follows(PSection(PSource, old(Rest()), 12), r, Rest())
    {
      hide PSource;
      var count :- Count(12);
      ghost var start := Rest();
      var items: seq<DebugSource> := [];
      PrependNone(PMany(PSource, start, count));
      for i := 0 to count
        invariant Valid() && PMany(PSource, start, count) == Prepend(items, PMany(PSource, Rest(), count - i))
      {
        var item :- Source();
        PrependStep(items, item, PMany(PSource, Rest(), count - i - 1));
        items := items + [item];
      }
      assert items + [] == items;
      r := Ok(items);
    }

    method Definitions() returns (r: Result<seq<DebugDefinition>>)
      requires Valid()
      modifies this
      ensures Valid() && Follows(PSection(PDefinition, old(Rest()), 53), r, Rest())
    {
      hide PDefinition;
      var count :- Count(53);
      ghost var start := Rest();
      var items: seq<DebugDefinition> := [];
      PrependNone(PMany(PDefinition, start, count));
      for i := 0 to count
        invariant Valid() && PMany(PDefinition, start, count) == Prepend(items, PMany(PDefinition, Rest(), count - i))
      {
        var item :- Definition();
        PrependStep(items, item, PMany(PDefinition, Rest(), count - i - 1));
        items := items + [item];
      }
      assert items + [] == items;
      r := Ok(items);
    }

    method Functions() returns (r: Result<seq<DebugFunction>>)
      requires Valid()
      modifies this
      ensures Valid() && Follows(PSection(PFunction, old(Rest()), 16), r, Rest())
    {
      hide PFunction;
      var count :- Count(16);
      ghost var start := Rest();
      var items: seq<DebugFunction> := [];
      PrependNone(PMany(PFunction, start, count));
      for i := 0 to count
        invariant Valid() && PMany(PFunction, start, count) == Prepend(items, PMany(PFunction, Rest(), count - i))
      {
        var item :- FunctionMap();
        PrependStep(items, item, PMany(PFunction, Rest(), count - i - 1));
        items := items + [item];
      }
      assert items + [] == items;
      r := Ok(items);
    }

    method CodeOrigins() returns (r: Result<seq<DebugCodeOrigin>>)
      requires Valid()
      modifies this
      ensures Valid() && Follows(PSection(POrigin, old(Rest()), 44), r, Rest())
    {
      hide POrigin;
      var count :- Count(44);
      ghost var start := Rest();
      var items: seq<DebugCodeOrigin> := [];
      PrependNone(PMany(POrigin, start, count));
      for i := 0 to count
        invariant Valid() && PMany(POrigin, start, count) == Prepend(items, PMany(POrigin, Rest(), count - i))
      {
        var item :- CodeOrigin();
        PrependStep(items, item, PMany(POrigin, Rest(), count - i - 1));
        items := items + [item];
      }
      assert items + [] == items;
      r := Ok(items);
    }
  }

  /** Items already read, in front of what a later parse adds. */
  ghost function Prepend<T>(items: seq<T>, p: Parsed<seq<T>>): Parsed<seq<T>> {
    match p case Yes(xs, rest) => Yes(items + xs, rest) case No(e) => No(e)
  }

  lemma PrependNone<T>(p: Parsed<seq<T>>)
    ensures Prepend([], p) == p
  {
    if p.Yes? { assert [] + p.value == p.value; }
  }

  lemma PrependStep<T>(items: seq<T>, item: T, p: Parsed<seq<T>>)
    ensures Prepend(items + [item], p) == Prepend(items, Prepend([item], p))
  {
    if p.Yes? { assert items + [item] + p.value == items + ([item] + p.value); }
  }

  /** Decode one optional debug section. */
  method Decode(bytes: Text) returns (r: Result<DebugInfo>)
    ensures r == DecodeSpec(bytes)
  {
    if bytes == [] { return Ok(EMPTY); }
    hide PSection, PU16;
    var cursor := new Cursor(bytes);
    assert cursor.Rest() == bytes;
    var magic :- cursor.Take(4);
    if magic != MAGIC { return Err(BadMagic); }
    var version :- cursor.U16();
    if version != VERSION { return Err(BadVersion); }
    var sources :- cursor.Sources();
    var definitions :- cursor.Definitions();
    var functions :- cursor.Functions();
    var origins :- cursor.CodeOrigins();
    if cursor.pos != |bytes| { return Err(TrailingBytes); }
    r := Ok(DebugInfo(sources, definitions, functions, origins));
  }
}
