/** The portable syntax record format: its bytes, its encoder and the
    validating view. */
module SyntaxFormat {
  import opened Common
  import opened Bytes

  datatype SyntaxError = Header | Version | Length | Reference | Range | Kind

  type Result<T> = Outcome<T, SyntaxError>

  datatype Class = Node | Token | Trivia | Invalid

  datatype Record = Record(cls: Class, kind: nat, lo: nat, hi: nat, childStart: nat, childLen: nat)

  const MAGIC: Text := [0x4C, 0x4D, 0x53, 0x59, 0x4E, 0x54, 0x00, 0x01]
  const FORMAT_VERSION: u16 := 1
  const GRAMMAR_MAJOR: u16 := 1
  const GRAMMAR_MINOR: u16 := 5
  const HEADER_SIZE: nat := 28
  const RECORD_SIZE: nat := 20
  const U32_MAX: nat := 0xFFFF_FFFF

  function Tag(c: Class): byte {
    match c case Node => 0 case Token => 1 case Trivia => 2 case Invalid => 3
  }

  function FromTag(tag: byte): Option<Class> {
    if tag == 0 then Some(Node) else if tag == 1 then Some(Token) else if tag == 2 then Some(Trivia)
    else if tag == 3 then Some(Invalid) else None
  }

  /** The class each item kind belongs to. */
  function KindClass(kind: nat): Option<Class> {
    if 1 <= kind <= 7 || kind == 9 then Some(Node)
    else if kind == 8 then Some(Invalid)
    else if 100 <= kind <= 138 then Some(Token)
    else if 500 <= kind <= 502 then Some(Trivia)
    else None
  }

  // ------------------------------------------------------------- encoding

  function RecordBytes(r: Record): (b: Text)
    ensures |b| == RECORD_SIZE
  {
    [Tag(r.cls), 0] + Le(r.kind, 2) + Le(r.lo, 4) + Le(r.hi, 4) + Le(r.childStart, 4) + Le(r.childLen, 4)
  }

  function Records(records: seq<Record>): (b: Text)
    ensures |b| == RECORD_SIZE * |records|
  {
    if records == [] then [] else RecordBytes(records[0]) + Records(records[1..])
  }

  function Words(words: seq<nat>): (b: Text)
    ensures |b| == 4 * |words|
  {
    if words == [] then [] else Le(words[0], 4) + Words(words[1..])
  }

  function HeaderBytes(items: nat, children: nat, root: nat): (b: Text)
    ensures |b| == HEADER_SIZE
  {
    MAGIC + (Le16(FORMAT_VERSION) + Le16(GRAMMAR_MAJOR) + Le16(GRAMMAR_MINOR) + Le16(0))
      + (Le(items, 4) + Le(children, 4) + Le(root, 4))
  }

  function Encoded(records: seq<Record>, children: seq<nat>, root: nat): (b: Text)
    ensures |b| == HEADER_SIZE + RECORD_SIZE * |records| + 4 * |children|
  {
    HeaderBytes(|records|, |children|, root) + Records(records) + Words(children)
  }

  function EncodeSpec(records: seq<Record>, children: seq<nat>, root: nat): Result<Text> {
    if root >= |records| then Err(Reference)
    else if |records| > U32_MAX || |children| > U32_MAX then Err(Length)
    else Ok(Encoded(records, children, root))
  }

  lemma RecordsSnoc(records: seq<Record>, k: nat)
    requires k < |records|
    ensures Records(records[k..]) == RecordBytes(records[k]) + Records(records[k + 1..])
  {
    assert records[k..][1..] == records[k + 1..];
  }

  lemma WordsSnoc(words: seq<nat>, k: nat)
    requires k < |words|
    ensures Words(words[k..]) == Le(words[k], 4) + Words(words[k + 1..])
  {
    assert words[k..][1..] == words[k + 1..];
  }

  lemma Regroup(a: Text, b: Text, c: Text)
    ensures (a + b) + c == a + (b + c)
  {
  }

  lemma TableStarts(records: seq<Record>, children: seq<nat>, root: nat)
    ensures Encoded(records, children, root)
         == HeaderBytes(|records|, |children|, root) + (Records(records[0..]) + Words(children[0..]))
  {
    hide HeaderBytes;
    assert records[0..] == records && children[0..] == children;
  }

  lemma TableEnds(records: seq<Record>, children: seq<nat>)
    ensures Records(records[|records|..]) == [] && Words(children[|children|..]) == []
  {
    assert records[|records|..] == [] && children[|children|..] == [];
  }

  method EncodeSyntax(records: seq<Record>, children: seq<nat>, root: nat) returns (r: Result<Text>)
    ensures r == EncodeSpec(records, children, root)
  {
    hide RecordBytes, Le, HeaderBytes, Records, Words, Encoded;
    if root >= |records| { return Err(Reference); }
    if |records| > U32_MAX || |children| > U32_MAX { return Err(Length); }
    var out := HeaderBytes(|records|, |children|, root);
    ghost var whole, words := Encoded(records, children, root), Words(children[0..]);
    TableStarts(records, children, root);
    TableEnds(records, children);
    for k := 0 to |records|
      invariant out + (Records(records[k..]) + words) == whole
    {
      RecordsSnoc(records, k);
      var bytes := RecordBytes(records[k]);
      Regroup(bytes, Records(records[k + 1..]), words);
      Regroup(out, bytes, Records(records[k + 1..]) + words);
      out := out + bytes;
    }
    assert [] + words == words;
    for k := 0 to |children|
      invariant out + Words(children[k..]) == whole
    {
      WordsSnoc(children, k);
      var bytes := Le(children[k], 4);
      Regroup(out, bytes, Words(children[k + 1..]));
      out := out + bytes;
    }
    assert out + [] == out;
    r := Ok(out);
  }

  // ----------------------------------------------------------------- view

  datatype View = View(bytes: Text, sourceLen: nat, items: nat, children: nat, root: nat)

  /** A half word inside the bytes. */
  function Half(b: Text, at: nat): nat
    requires at + 2 <= |b|
  {
    FromLe16(b[at..at + 2])
  }

  /** A word inside the bytes. */
  function WordAt(b: Text, at: nat): nat
    requires at + 4 <= |b|
  {
    FromLe32(b[at..at + 4])
  }

  function ReadU32(b: Text, at: nat): Result<nat> {
    if at + 4 <= |b| then Ok(WordAt(b, at)) else Err(Length)
  }

  /** The view reads a byte string of the announced size. */
  predicate Sized(v: View) {
    |v.bytes| == HEADER_SIZE + RECORD_SIZE * v.items + 4 * v.children
  }

  /** The checks on the fields of one record, in their order. */
  function CheckFields(sourceLen: nat, children: nat, r: Record): Result<Record> {
    if KindClass(r.kind) != Some(r.cls) then Err(Kind)
    else if r.childStart + r.childLen > U32_MAX then Err(Reference)
    else if r.lo > r.hi || r.hi > sourceLen then Err(Range)
    else if r.childStart + r.childLen > children || ((r.cls.Token? || r.cls.Trivia?) && r.childLen != 0)
        then Err(Reference)
    else Ok(r)
  }

  function RecordAt(v: View, index: nat): Result<Record>
    requires Sized(v)
  {
    if index >= v.items then Err(Reference)
    else
      var at := HEADER_SIZE + index * RECORD_SIZE;
      var cls := FromTag(v.bytes[at]);
      if cls.None? then Err(Kind)
      else if v.bytes[at + 1] != 0 then Err(Kind)
      else
        CheckFields(v.sourceLen, v.children,
          Record(cls.value, Half(v.bytes, at + 2), WordAt(v.bytes, at + 4), WordAt(v.bytes, at + 8),
            WordAt(v.bytes, at + 12), WordAt(v.bytes, at + 16)))
  }

  /** Entry `ordinal` of the child table. */
  function LinkAt(v: View, ordinal: nat): Result<nat>
    requires Sized(v)
  {
    var index :- ReadU32(v.bytes, HEADER_SIZE + RECORD_SIZE * v.items + ordinal * 4);
    if index >= v.items then Err(Reference) else Ok(index)
  }

  function ChildAt(v: View, r: Record, offset: nat): Result<nat>
    requires Sized(v)
  {
    if offset >= r.childLen then Err(Reference)
    else if r.childStart + offset > U32_MAX then Err(Reference)
    else LinkAt(v, r.childStart + offset)
  }

  function NewView(b: Text, sourceLen: nat): (r: Result<View>)
    ensures r.Ok? ==> Sized(r.value) && r.value.bytes == b && r.value.sourceLen == sourceLen
    ensures r.Ok? ==> r.value.items <= U32_MAX && r.value.children <= U32_MAX && sourceLen <= U32_MAX
  {
    if |b| < HEADER_SIZE || b[..8] != MAGIC then Err(Header)
    else
      if Half(b, 8) != FORMAT_VERSION || Half(b, 10) != GRAMMAR_MAJOR || Half(b, 12) != GRAMMAR_MINOR
          || Half(b, 14) != 0
        then Err(Version)
      else
        var items, children, root := WordAt(b, 16), WordAt(b, 20), WordAt(b, 24);
        if root >= items then Err(Reference)
        else if HEADER_SIZE + items * RECORD_SIZE + children * 4 != |b| || sourceLen > U32_MAX then Err(Length)
        else
          var v := View(b, sourceLen, items, children, root);
          var _ :- RecordAt(v, root);
          Ok(v)
  }

  // ------------------------------------------------- reading an encoding

  lemma Slice<T>(a: seq<T>, b: seq<T>, c: seq<T>)
    ensures (a + b + c)[|a|..|a| + |b|] == b
  {
  }

  lemma ReadWordIn(a: Text, x: nat, c: Text)
    requires x <= U32_MAX
    ensures WordAt(a + Le(x, 4) + c, |a|) == x
  {
    Slice(a, Le(x, 4), c);
    Le32RoundTrip(x);
  }

  lemma ReadHalfIn(a: Text, x: nat, c: Text)
    requires x < U16_LIMIT
    ensures Half(a + Le(x, 2) + c, |a|) == x
  {
    Slice(a, Le(x, 2), c);
    Le16RoundTrip(x);
  }

  lemma {:induction false} RecordsSplit(records: seq<Record>, k: nat)
    requires k < |records|
    ensures Records(records) == Records(records[..k]) + RecordBytes(records[k]) + Records(records[k + 1..])
  {
    hide RecordBytes;
    if k == 0 {
      assert records[..0] == [];
    } else {
      RecordsSplit(records[1..], k - 1);
      assert records[1..][..k - 1] == records[..k][1..] && records[1..][k..] == records[k + 1..];
      assert records[..k][0] == records[0];
      var a, b := Records(records[1..][..k - 1]), RecordBytes(records[k]) + Records(records[k + 1..]);
      assert RecordBytes(records[0]) + (a + b) == (RecordBytes(records[0]) + a) + b;
    }
  }

  lemma {:induction false} WordsSplit(words: seq<nat>, k: nat)
    requires k < |words|
    ensures Words(words) == Words(words[..k]) + Le(words[k], 4) + Words(words[k + 1..])
  {
    if k == 0 {
      assert words[..0] == [];
    } else {
      WordsSplit(words[1..], k - 1);
      assert words[1..][..k - 1] == words[..k][1..] && words[1..][k..] == words[k + 1..];
      assert words[..k][0] == words[0];
      var a, b := Words(words[1..][..k - 1]), Le(words[k], 4) + Words(words[k + 1..]);
      assert Le(words[0], 4) + (a + b) == (Le(words[0], 4) + a) + b;
    }
  }

  /** The view of an encoding, before its root record is checked. */
  function EncodedView(records: seq<Record>, children: seq<nat>, root: nat, sourceLen: nat): (v: View)
    ensures Sized(v)
  {
    View(Encoded(records, children, root), sourceLen, |records|, |children|, root)
  }

  /** Every number fits its field. */
  ghost predicate Storable(r: Record) {
    r.kind < U16_LIMIT && r.lo <= U32_MAX && r.hi <= U32_MAX && r.childStart <= U32_MAX && r.childLen <= U32_MAX
  }

  lemma FieldsIn(a: Text, r: Record, c: Text)
    requires Storable(r)
    ensures var b := a + RecordBytes(r) + c;
      && |b| >= |a| + RECORD_SIZE
      && FromTag(b[|a|]) == Some(r.cls) && b[|a| + 1] == 0
      && Half(b, |a| + 2) == r.kind
      && WordAt(b, |a| + 4) == r.lo && WordAt(b, |a| + 8) == r.hi
      && WordAt(b, |a| + 12) == r.childStart && WordAt(b, |a| + 16) == r.childLen
  {
    hide Le, Half, WordAt;
    var b := a + RecordBytes(r) + c;
    var t, k, l, h, s, n := [Tag(r.cls), 0], Le(r.kind, 2), Le(r.lo, 4), Le(r.hi, 4), Le(r.childStart, 4),
        Le(r.childLen, 4);
    assert b[|a|] == t[0] && b[|a| + 1] == t[1];
    assert b == (a + t) + k + (l + h + s + n + c);
    ReadHalfIn(a + t, r.kind, l + h + s + n + c);
    assert b == (a + t + k) + l + (h + s + n + c);
    ReadWordIn(a + t + k, r.lo, h + s + n + c);
    assert b == (a + t + k + l) + h + (s + n + c);
    ReadWordIn(a + t + k + l, r.hi, s + n + c);
    assert b == (a + t + k + l + h) + s + (n + c);
    ReadWordIn(a + t + k + l + h, r.childStart, n + c);
    assert b == (a + t + k + l + h + s) + n + c;
    ReadWordIn(a + t + k + l + h + s, r.childLen, c);
  }

  /** Reading record `i` of an encoding checks record `i` and gives it back. */
  lemma EncodedRecord(records: seq<Record>, children: seq<nat>, root: nat, sourceLen: nat, i: nat)
    requires i < |records| && Storable(records[i])
    ensures RecordAt(EncodedView(records, children, root, sourceLen), i)
              == CheckFields(sourceLen, |children|, records[i])
  {
    hide Records, RecordBytes, Words, HeaderBytes, Half, WordAt, CheckFields;
    var a := HeaderBytes(|records|, |children|, root) + Records(records[..i]);
    var c := Records(records[i + 1..]) + Words(children);
    RecordsSplit(records, i);
    assert Encoded(records, children, root) == a + RecordBytes(records[i]) + c;
    assert |a| == HEADER_SIZE + i * RECORD_SIZE;
    FieldsIn(a, records[i], c);
    KindFirst(sourceLen, |children|, records[i]);
  }

  lemma KindFirst(sourceLen: nat, children: nat, r: Record)
    ensures KindClass(r.kind) != Some(r.cls) ==> CheckFields(sourceLen, children, r) == Err(Kind)
  {
  }

  lemma EncodedLink(records: seq<Record>, children: seq<nat>, root: nat, sourceLen: nat, i: nat)
    requires i < |children| && children[i] <= U32_MAX
    ensures LinkAt(EncodedView(records, children, root, sourceLen), i)
         == if children[i] >= |records| then Err(Reference) else Ok(children[i])
  {
    hide Records, Words, HeaderBytes, WordAt;
    var a := HeaderBytes(|records|, |children|, root) + Records(records) + Words(children[..i]);
    WordsSplit(children, i);
    assert Encoded(records, children, root) == a + Le(children[i], 4) + Words(children[i + 1..]);
    ReadWordIn(a, children[i], Words(children[i + 1..]));
  }

  lemma HeaderIn(items: nat, children: nat, root: nat, c: Text)
    requires items <= U32_MAX && children <= U32_MAX && root <= U32_MAX
    ensures var b := HeaderBytes(items, children, root) + c;
      && b[..8] == MAGIC
      && Half(b, 8) == FORMAT_VERSION && Half(b, 10) == GRAMMAR_MAJOR
      && Half(b, 12) == GRAMMAR_MINOR && Half(b, 14) == 0
      && WordAt(b, 16) == items && WordAt(b, 20) == children && WordAt(b, 24) == root
  {
    hide Le, Half, WordAt;
    var b := HeaderBytes(items, children, root) + c;
    var m, v, j, n, z := MAGIC, Le(FORMAT_VERSION, 2), Le(GRAMMAR_MAJOR, 2), Le(GRAMMAR_MINOR, 2), Le(0, 2);
    var i, k, r := Le(items, 4), Le(children, 4), Le(root, 4);
    assert b == m + v + (j + n + z + i + k + r + c);
    ReadHalfIn(m, FORMAT_VERSION, j + n + z + i + k + r + c);
    assert b == (m + v) + j + (n + z + i + k + r + c);
    ReadHalfIn(m + v, GRAMMAR_MAJOR, n + z + i + k + r + c);
    assert b == (m + v + j) + n + (z + i + k + r + c);
    ReadHalfIn(m + v + j, GRAMMAR_MINOR, z + i + k + r + c);
    assert b == (m + v + j + n) + z + (i + k + r + c);
    ReadHalfIn(m + v + j + n, 0, i + k + r + c);
    assert b == (m + v + j + n + z) + i + (k + r + c);
    ReadWordIn(m + v + j + n + z, items, k + r + c);
    assert b == (m + v + j + n + z + i) + k + (r + c);
    ReadWordIn(m + v + j + n + z + i, children, r + c);
    assert b == (m + v + j + n + z + i + k) + r + c;
    ReadWordIn(m + v + j + n + z + i + k, root, c);
    assert b[..8] == m;
  }

  /** The view of an encoding opens exactly when its root record checks. */
  lemma EncodedOpens(records: seq<Record>, children: seq<nat>, root: nat, sourceLen: nat)
    requires root < |records| <= U32_MAX && |children| <= U32_MAX && sourceLen <= U32_MAX && Storable(records[root])
    ensures NewView(Encoded(records, children, root), sourceLen) ==
            match CheckFields(sourceLen, |children|, records[root])
            case Ok(_) => Ok(EncodedView(records, children, root, sourceLen))
            case Err(e) => Err(e)
  {
    hide HeaderBytes, Records, Words, Half, WordAt, RecordAt, CheckFields;
    HeaderIn(|records|, |children|, root, Records(records) + Words(children));
    assert Encoded(records, children, root)
        == HeaderBytes(|records|, |children|, root) + (Records(records) + Words(children));
    EncodedRecord(records, children, root, sourceLen, root);
  }

  /** Which kinds belong to a class. */
  ghost predicate KindOf(kind: nat, cls: Class) {
    match cls
    case Node => 1 <= kind <= 9 && kind != 8
    case Invalid => kind == 8
    case Token => 100 <= kind <= 138
    case Trivia => 500 <= kind <= 502
  }

  ghost predicate RangeOk(r: Record, sourceLen: nat) {
    r.lo <= r.hi <= sourceLen
  }

  /** The child entries are in the table; tokens and trivia have none. */
  ghost predicate EntriesOk(r: Record, children: nat) {
    r.childStart + r.childLen <= children && (r.cls.Token? || r.cls.Trivia? ==> r.childLen == 0)
  }

  /** A record passes exactly when its class fits its kind, its range is in the
      source and its child entries are in the table; the kind is blamed first,
      a range before child entries unless those pass 32 bits. */
  lemma RecordChecks(sourceLen: nat, children: nat, r: Record)
    requires children <= 0xFFFF_FFFF
    ensures CheckFields(sourceLen, children, r).Ok? <==>
              KindOf(r.kind, r.cls) && RangeOk(r, sourceLen) && EntriesOk(r, children)
    ensures CheckFields(sourceLen, children, r).Ok? ==> CheckFields(sourceLen, children, r).value == r
    ensures CheckFields(sourceLen, children, r) == Err(Kind) <==> !KindOf(r.kind, r.cls)
    ensures CheckFields(sourceLen, children, r) == Err(Range) <==>
              KindOf(r.kind, r.cls) && r.childStart + r.childLen <= 0xFFFF_FFFF && !RangeOk(r, sourceLen)
  {
  }

  // ------------------------------------------------ what opens is an encoding

  /** All records of the view, when each of them checks. */
  ghost predicate AllCheck(v: View)
    requires Sized(v)
  {
    forall i :: 0 <= i < v.items ==> RecordAt(v, i).Ok?
  }

  ghost function ReadRecords(v: View, from: nat): (rs: seq<Record>)
    requires Sized(v) && AllCheck(v) && from <= v.items
    ensures |rs| == v.items - from
    decreases v.items - from
  {
    if from == v.items then [] else [RecordAt(v, from).value] + ReadRecords(v, from + 1)
  }

  ghost function ReadWords(v: View, from: nat): (ws: seq<nat>)
    requires Sized(v) && from <= v.children
    ensures |ws| == v.children - from
    decreases v.children - from
  {
    if from == v.children then []
    else [WordAt(v.bytes, HEADER_SIZE + RECORD_SIZE * v.items + 4 * from)] + ReadWords(v, from + 1)
  }

  lemma WordUnread(b: Text, at: nat)
    requires at + 4 <= |b|
    ensures Le(WordAt(b, at), 4) == b[at..at + 4]
  {
    Le32Unread(b[at..at + 4]);
  }

  lemma HalfUnread(b: Text, at: nat)
    requires at + 2 <= |b|
    ensures Le(Half(b, at), 2) == b[at..at + 2]
  {
    Le16Unread(b[at..at + 2]);
  }

  lemma TagBack(tag: byte)
    requires FromTag(tag).Some?
    ensures Tag(FromTag(tag).value) == tag
  {
  }

  lemma Cut<T>(b: seq<T>, lo: nat, mid: nat, hi: nat)
    requires lo <= mid <= hi <= |b|
    ensures b[lo..hi] == b[lo..mid] + b[mid..hi]
  {
  }

  lemma Joined6(b: Text, at: nat)
    requires at + 20 <= |b|
    ensures b[at..at + 20] == [b[at], b[at + 1]] + b[at + 2..at + 4] + b[at + 4..at + 8] + b[at + 8..at + 12]
                              + b[at + 12..at + 16] + b[at + 16..at + 20]
  {
    Cut(b, at, at + 16, at + 20);
    Cut(b, at, at + 12, at + 16);
    Cut(b, at, at + 8, at + 12);
    Cut(b, at, at + 4, at + 8);
    Cut(b, at, at + 2, at + 4);
    assert b[at..at + 2] == [b[at], b[at + 1]];
  }

  /** The record whose fields stand at `at`. */
  ghost function RawRecord(b: Text, at: nat): Record
    requires at + 20 <= |b| && FromTag(b[at]).Some?
  {
    Record(FromTag(b[at]).value, Half(b, at + 2), WordAt(b, at + 4), WordAt(b, at + 8), WordAt(b, at + 12),
           WordAt(b, at + 16))
  }

  lemma RawUnread(b: Text, at: nat)
    requires at + 20 <= |b| && FromTag(b[at]).Some? && b[at + 1] == 0
    ensures RecordBytes(RawRecord(b, at)) == b[at..at + 20]
  {
    hide Le, Half, WordAt, FromTag, Tag;
    TagBack(b[at]);
    HalfUnread(b, at + 2);
    WordUnread(b, at + 4);
    WordUnread(b, at + 8);
    WordUnread(b, at + 12);
    WordUnread(b, at + 16);
    Joined6(b, at);
  }

  lemma CheckedIs(sourceLen: nat, children: nat, r: Record)
    requires CheckFields(sourceLen, children, r).Ok?
    ensures CheckFields(sourceLen, children, r).value == r
  {
  }

  /** A record that checks is the record its bytes spell out. */
  lemma RecordUnread(v: View, i: nat)
    requires Sized(v) && i < v.items && RecordAt(v, i).Ok?
    ensures var at := HEADER_SIZE + i * RECORD_SIZE;
      at + 20 <= |v.bytes| && RecordBytes(RecordAt(v, i).value) == v.bytes[at..at + 20]
  {
    hide RecordBytes, Half, WordAt, FromTag, CheckFields;
    var b, at := v.bytes, HEADER_SIZE + i * RECORD_SIZE;
    assert at + 20 <= |b|;
    CheckedIs(v.sourceLen, v.children, RawRecord(b, at));
    RawUnread(b, at);
  }

  lemma {:induction false} RecordsUnread(v: View, from: nat)
    requires Sized(v) && AllCheck(v) && from <= v.items
    ensures var lo, hi := HEADER_SIZE + from * RECORD_SIZE, HEADER_SIZE + v.items * RECORD_SIZE;
      lo <= hi <= |v.bytes| && Records(ReadRecords(v, from)) == v.bytes[lo..hi]
    decreases v.items - from
  {
    hide RecordBytes, RecordAt;
    var b, lo, hi := v.bytes, HEADER_SIZE + from * RECORD_SIZE, HEADER_SIZE + v.items * RECORD_SIZE;
    if from == v.items {
      assert b[lo..hi] == [];
    } else {
      RecordsUnread(v, from + 1);
      RecordUnread(v, from);
      var rest := ReadRecords(v, from + 1);
      assert ([RecordAt(v, from).value] + rest)[1..] == rest;
      assert b[lo..hi] == b[lo..lo + 20] + b[lo + 20..hi];
    }
  }

  lemma {:induction false} WordsUnread(v: View, from: nat)
    requires Sized(v) && from <= v.children
    ensures var lo := HEADER_SIZE + RECORD_SIZE * v.items + 4 * from;
      lo <= |v.bytes| && Words(ReadWords(v, from)) == v.bytes[lo..]
    decreases v.children - from
  {
    hide Le, WordAt;
    var b, lo := v.bytes, HEADER_SIZE + RECORD_SIZE * v.items + 4 * from;
    if from < v.children {
      WordsUnread(v, from + 1);
      WordUnread(b, lo);
      var rest := ReadWords(v, from + 1);
      assert ([WordAt(b, lo)] + rest)[1..] == rest;
      assert b[lo..] == b[lo..lo + 4] + b[lo + 4..];
    }
  }

  lemma HeaderUnread(b: Text, sourceLen: nat)
    requires NewView(b, sourceLen).Ok?
    ensures var v := NewView(b, sourceLen).value;
      |b| >= 28 && HeaderBytes(v.items, v.children, v.root) == b[..28]
  {
    hide Le, Half, WordAt, RecordAt;
    HalfUnread(b, 8);
    HalfUnread(b, 10);
    HalfUnread(b, 12);
    HalfUnread(b, 14);
    WordUnread(b, 16);
    WordUnread(b, 20);
    WordUnread(b, 24);
    assert b[..28] == b[..8] + (b[8..10] + b[10..12] + b[12..14] + b[14..16]) + (b[16..20] + b[20..24] + b[24..28]);
  }

  /** Whatever opens, and whose records all check, is byte for byte the encoding
      of the records and child entries that are read from it; it begins with
      the header `LMSYNT`, 0, 1, format 1 and grammar 1.5. */
  lemma OpenedIsEncoded(b: Text, sourceLen: nat)
    requires NewView(b, sourceLen).Ok?
    ensures |b| >= 16 && b[..16] == [0x4C, 0x4D, 0x53, 0x59, 0x4E, 0x54, 0, 1, 1, 0, 1, 0, 5, 0, 0, 0]
    ensures var v := NewView(b, sourceLen).value;
      AllCheck(v) ==> b == Encoded(ReadRecords(v, 0), ReadWords(v, 0), v.root)
  {
    hide Le, HeaderBytes, Records, Words, NewView, AllCheck, ReadRecords, ReadWords;
    var v := NewView(b, sourceLen).value;
    HeaderUnread(b, sourceLen);
    HeaderFront(v.items, v.children, v.root);
    assert b[..28][..16] == b[..16];
    if AllCheck(v) {
      RecordsUnread(v, 0);
      WordsUnread(v, 0);
      var mid := HEADER_SIZE + v.items * RECORD_SIZE;
      assert b == b[..28] + b[28..mid] + b[mid..];
    }
  }

  lemma HeaderFront(items: nat, children: nat, root: nat)
    ensures HeaderBytes(items, children, root)[..16]
              == [0x4C, 0x4D, 0x53, 0x59, 0x4E, 0x54, 0, 1, 1, 0, 1, 0, 5, 0, 0, 0]
  {
    assert forall x: nat :: x < 0x100 ==> Digit(x, 0) == x && Digit(x, 1) == Digit(0, 0) == 0;
    assert Le16(1) == [1, 0] && Le16(5) == [5, 0] && Le16(0) == [0, 0];
  }

  // --------------------------------------------------- what does not open

  const OPENING: Text := [0x4C, 0x4D, 0x53, 0x59, 0x4E, 0x54, 0, 1]
  const VERSIONS: Text := [1, 0, 1, 0, 5, 0, 0, 0]

  lemma HalvesAre(b: Text)
    requires |b| >= 16
    ensures b[8..16] == VERSIONS <==> Half(b, 8) == 1 && Half(b, 10) == 1 && Half(b, 12) == 5 && Half(b, 14) == 0
  {
    assert forall at :: 8 <= at <= 14 ==> Half(b, at) == b[at] as int + 0x100 * b[at + 1] as int;
    if Half(b, 8) == 1 && Half(b, 10) == 1 && Half(b, 12) == 5 && Half(b, 14) == 0 {
      assert b[8..16] == [b[8], b[9], b[10], b[11], b[12], b[13], b[14], b[15]];
    }
    if b[8..16] == VERSIONS {
      assert b[8] == b[8..16][0] && b[9] == b[8..16][1] && b[10] == b[8..16][2] && b[11] == b[8..16][3];
      assert b[12] == b[8..16][4] && b[13] == b[8..16][5] && b[14] == b[8..16][6] && b[15] == b[8..16][7];
    }
  }

  /** The first thing wrong with bytes that do not open: the magic, then the
      versions, then the root, then the size, then the root record. */
  lemma OpenFaults(b: Text, sourceLen: nat)
    ensures |b| < 28 || b[..8] != OPENING ==> NewView(b, sourceLen) == Err(Header)
    ensures |b| >= 28 && b[..8] == OPENING && b[8..16] != VERSIONS ==> NewView(b, sourceLen) == Err(Version)
    ensures |b| >= 28 && b[..8] == OPENING && b[8..16] == VERSIONS ==>
              var items, children, root := FromLe32(b[16..20]), FromLe32(b[20..24]), FromLe32(b[24..28]);
              if root >= items then NewView(b, sourceLen) == Err(Reference)
              else if 28 + 20 * items + 4 * children != |b| || sourceLen > 0xFFFF_FFFF then
                NewView(b, sourceLen) == Err(Length)
              else
                var v := View(b, sourceLen, items, children, root);
                NewView(b, sourceLen) ==
                  match RecordAt(v, root) case Ok(_) => Ok(v) case Err(e) => Err(e)
  {
    hide RecordAt, FromLe32;
    if |b| >= 28 { HalvesAre(b); }
  }

  /** Reading outside the table, an unknown class or a reserved byte that is
      not zero; and a child past the end of its list. */
  lemma ReadFaults(v: View, i: nat, r: Record, offset: nat)
    requires Sized(v)
    ensures i >= v.items ==> RecordAt(v, i) == Err(Reference)
    ensures i < v.items && (v.bytes[28 + 20 * i] > 3 || v.bytes[28 + 20 * i + 1] != 0) ==> RecordAt(v, i) == Err(Kind)
    ensures offset >= r.childLen ==> ChildAt(v, r, offset) == Err(Reference)
    ensures offset < r.childLen && r.childStart + offset <= 0xFFFF_FFFF ==>
              ChildAt(v, r, offset) == LinkAt(v, r.childStart + offset)
  {
    hide CheckFields, LinkAt;
  }
}
