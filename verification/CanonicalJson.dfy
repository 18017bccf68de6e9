/**
 The canonical JSON printer behind request hashes, its twin in the audit log, and what
 equality of canonical texts means.
 */
module CanonicalJson {
  import opened Wrappers
  import opened JsText

  /** A finite number is named by the shortest numeral JavaScript prints for it. */
  datatype JsNumber = NegativeZero | NotFinite | Finite(numeral: Text)

  datatype Value =
    | Undefined
    | Null
    | Boolean(b: bool)
    | Number(n: JsNumber)
    | String(s: Text)
    | Array(items: seq<Value>)
    | Object(members: seq<Member>)

  datatype Member = Member(key: Text, value: Value)

  const ZERO: Text := [48]
  const NULL_TEXT: Text := [110, 117, 108, 108]
  const TRUE_TEXT: Text := [116, 114, 117, 101]
  const FALSE_TEXT: Text := [102, 97, 108, 115, 101]
  const UNDEFINED_TEXT: Text := [117, 110, 100, 101, 102, 105, 110, 101, 100]
  const QUOTE: CodeUnit := 34
  const COMMA: CodeUnit := 44
  const COLON: CodeUnit := 58
  const BACKSLASH: CodeUnit := 92

  function Size(v: Value): (n: nat)
    ensures n > 0
    decreases v, 1
  {
    match v
    case Array(items) => 1 + ItemsSize(items)
    case Object(members) => 1 + MembersSize(members)
    case _ => 1
  }

  function ItemsSize(items: seq<Value>): nat
    decreases items, 0
  {
    if items == [] then 0 else 1 + Size(items[0]) + ItemsSize(items[1..])
  }

  function MembersSize(members: seq<Member>): nat
    decreases members, 0
  {
    if members == [] then 0 else 1 + Size(members[0].value) + MembersSize(members[1..])
  }

  // ---------------------------------------------------------------------------
  // JSON.stringify of scalars
  // ---------------------------------------------------------------------------

  function HexDigit(d: CodeUnit): CodeUnit
    requires d < 16
  {
    if d < 10 then 48 + d else 87 + d
  }

  function UnicodeEscape(c: CodeUnit): Text {
    [BACKSLASH, 117, HexDigit(c / 4096), HexDigit(c / 256 % 16), HexDigit(c / 16 % 16), HexDigit(c % 16)]
  }

  /** One code unit that is not part of a surrogate pair. */
  function EscapeUnit(c: CodeUnit): Text {
    if c == 8 then [BACKSLASH, 98]
    else if c == 9 then [BACKSLASH, 116]
    else if c == 10 then [BACKSLASH, 110]
    else if c == 12 then [BACKSLASH, 102]
    else if c == 13 then [BACKSLASH, 114]
    else if c == QUOTE || c == BACKSLASH then [BACKSLASH, c]
    else if c < 32 || IsHighSurrogate(c) || IsLowSurrogate(c) then UnicodeEscape(c)
    else [c]
  }

  function Escape(s: Text): Text {
    if s == [] then []
    else if StartsWithPair(s) then s[..2] + Escape(s[2..])
    else EscapeUnit(s[0]) + Escape(s[1..])
  }

  function Quoted(s: Text): Text {
    [QUOTE] + Escape(s) + [QUOTE]
  }

  function NumberText(n: JsNumber): Text {
    match n
    case NegativeZero => ZERO
    case NotFinite => NULL_TEXT
    case Finite(numeral) => numeral
  }

  // ---------------------------------------------------------------------------
  // The canonical printer
  // ---------------------------------------------------------------------------

  function Join(texts: seq<Text>): Text {
    if texts == [] then []
    else if |texts| == 1 then texts[0]
    else texts[0] + [COMMA] + Join(texts[1..])
  }

  function Insert(m: Member, sorted: seq<Member>): (r: seq<Member>)
    ensures MembersSize(r) == 1 + Size(m.value) + MembersSize(sorted)
  {
    if sorted == [] || !Less(sorted[0].key, m.key) then
      assert ([m] + sorted)[1..] == sorted;
      [m] + sorted
    else
      var tail := Insert(m, sorted[1..]);
      assert ([sorted[0]] + tail)[1..] == tail;
      [sorted[0]] + tail
  }

  /** The members in the order of their sorted keys. */
  function SortByKey(members: seq<Member>): (r: seq<Member>)
    ensures MembersSize(r) == MembersSize(members)
  {
    if members == [] then [] else Insert(members[0], SortByKey(members[1..]))
  }

  function Defined(members: seq<Member>): (r: seq<Member>)
    ensures MembersSize(r) <= MembersSize(members)
  {
    if members == [] then []
    else if members[0].value.Undefined? then Defined(members[1..])
    else
      var tail := Defined(members[1..]);
      assert ([members[0]] + tail)[1..] == tail;
      [members[0]] + tail
  }

  function Printed(members: seq<Member>): (r: seq<Member>)
    ensures MembersSize(r) <= MembersSize(members)
  {
    Defined(SortByKey(members))
  }

  /** `canonicalJson` */
  function Canonical(v: Value): Text
    decreases Size(v)
  {
    match v
    case Array(items) => [91] + Join(ItemTexts(items)) + [93]
    case Object(members) => [123] + Join(MemberTexts(Printed(members))) + [125]
    case Undefined => NULL_TEXT
    case Null => NULL_TEXT
    case Boolean(b) => if b then TRUE_TEXT else FALSE_TEXT
    case Number(n) => NumberText(n)
    case String(s) => Quoted(s)
  }

  function ItemTexts(items: seq<Value>): (texts: seq<Text>)
    ensures |texts| == |items|
    decreases ItemsSize(items)
  {
    if items == [] then [] else [Canonical(items[0])] + ItemTexts(items[1..])
  }

  function MemberTexts(members: seq<Member>): (texts: seq<Text>)
    ensures |texts| == |members|
    decreases MembersSize(members)
  {
    if members == [] then []
    else [Quoted(members[0].key) + [COLON] + Canonical(members[0].value)] + MemberTexts(members[1..])
  }

  // ---------------------------------------------------------------------------
  // The audit log's printer
  // ---------------------------------------------------------------------------

  /** `canonicalizeJson`; `None` is JavaScript's `undefined`, which joins as nothing and interpolates as a word. */
  function Audit(v: Value): Option<Text>
    decreases Size(v)
  {
    match v
    case Array(items) => Some([91] + Join(AuditItems(items)) + [93])
    case Object(members) => Some([123] + Join(AuditMembers(SortByKey(members))) + [125])
    case Undefined => None
    case Null => Some(NULL_TEXT)
    case Boolean(b) => Some(if b then TRUE_TEXT else FALSE_TEXT)
    case Number(n) => Some(NumberText(n))
    case String(s) => Some(Quoted(s))
  }

  function AuditItems(items: seq<Value>): seq<Text>
    decreases ItemsSize(items)
  {
    if items == [] then []
    else [var t := Audit(items[0]); if t.None? then [] else t.value] + AuditItems(items[1..])
  }

  function AuditMembers(members: seq<Member>): seq<Text>
    decreases MembersSize(members)
  {
    if members == [] then []
    else
      var t := Audit(members[0].value);
      [Quoted(members[0].key) + [COLON] + (if t.None? then UNDEFINED_TEXT else t.value)] + AuditMembers(members[1..])
  }

  // ---------------------------------------------------------------------------
  // What a value means: objects without key order
  // ---------------------------------------------------------------------------

  datatype Meaning =
    | Nothing
    | Truth(b: bool)
    | Quantity(numeral: Text)
    | Characters(s: Text)
    | Sequence(items: seq<Meaning>)
    | Mapping(members: map<Text, Meaning>)

  /**
   -0 means 0; what JSON cannot express outside an object member means null; an undefined
   member means nothing at all.
   */
  function MeaningOf(v: Value): Meaning
    decreases v, 1
  {
    match v
    case Undefined => Nothing
    case Null => Nothing
    case Boolean(b) => Truth(b)
    case Number(NegativeZero) => Quantity(ZERO)
    case Number(NotFinite) => Nothing
    case Number(Finite(numeral)) => Quantity(numeral)
    case String(s) => Characters(s)
    case Array(items) => Sequence(ItemMeanings(items))
    case Object(members) => Mapping(MemberMeanings(members))
  }

  function ItemMeanings(items: seq<Value>): (r: seq<Meaning>)
    ensures |r| == |items|
    decreases items, 0
  {
    if items == [] then [] else [MeaningOf(items[0])] + ItemMeanings(items[1..])
  }

  function MemberMeanings(members: seq<Member>): map<Text, Meaning>
    decreases members, 0
  {
    if members == [] then map[]
    else if members[0].value.Undefined? then MemberMeanings(members[1..])
    else MemberMeanings(members[1..])[members[0].key := MeaningOf(members[0].value)]
  }

  predicate IsNumeralUnit(c: CodeUnit) {
    48 <= c <= 57 || c == 43 || c == 45 || c == 46 || c == 101
  }

  predicate IsNumeral(t: Text) {
    t != [] && (48 <= t[0] <= 57 || t[0] == 45) && forall i :: 0 <= i < |t| ==> IsNumeralUnit(t[i])
  }

  predicate DistinctKeys(members: seq<Member>) {
    forall i, j :: 0 <= i < j < |members| ==> members[i].key != members[j].key
  }

  /** What every JavaScript value satisfies: numerals are numerals and an object has each key once. */
  predicate WellFormed(v: Value)
    decreases v, 1
  {
    match v
    case Number(Finite(numeral)) => IsNumeral(numeral)
    case Array(items) => forall i :: 0 <= i < |items| ==> WellFormed(items[i])
    case Object(members) => DistinctKeys(members) && forall i :: 0 <= i < |members| ==> WellFormed(members[i].value)
    case _ => true
  }

  /** No `undefined` anywhere. */
  predicate Pure(v: Value)
    decreases v, 1
  {
    match v
    case Undefined => false
    case Array(items) => forall i :: 0 <= i < |items| ==> Pure(items[i])
    case Object(members) => forall i :: 0 <= i < |members| ==> Pure(members[i].value)
    case _ => true
  }
}
