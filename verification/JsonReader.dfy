/**
 A JSON reader after RFC 8259, for texts without insignificant white space, and what it makes
 of a canonical text: the printed value, with every object's keys in ascending order.
 */
module JsonReader {
  import opened Wrappers
  import opened JsText
  import opened CanonicalJson
  import opened CanonicalJsonProofs

  // ---------------------------------------------------------------------------
  // Strings and numbers (sections 6 and 7)
  // ---------------------------------------------------------------------------

  function HexValue(c: CodeUnit): Option<CodeUnit> {
    if 48 <= c <= 57 then Some(c - 48)
    else if 97 <= c <= 102 then Some(c - 87)
    else if 65 <= c <= 70 then Some(c - 55)
    else None
  }

  /** Four hexadecimal digits. */
  function HexUnit(a: CodeUnit, b: CodeUnit, c: CodeUnit, d: CodeUnit): Option<CodeUnit> {
    var (p, q, r, s) := (HexValue(a), HexValue(b), HexValue(c), HexValue(d));
    if p.Some? && q.Some? && r.Some? && s.Some? && p.value < 16 && q.value < 16 && r.value < 16 && s.value < 16
    then Some((p.value as int * 4096 + q.value as int * 256 + r.value as int * 16 + s.value as int) as CodeUnit)
    else None
  }

  /** What the character behind a backslash stands for, the `u` aside. */
  function ShortEscape(c: CodeUnit): Option<CodeUnit> {
    if c == 34 || c == 47 || c == 92 then Some(c)
    else if c == 98 then Some(8)
    else if c == 102 then Some(12)
    else if c == 110 then Some(10)
    else if c == 114 then Some(13)
    else if c == 116 then Some(9)
    else None
  }

  function Put(c: CodeUnit, read: Option<(Text, Text)>): Option<(Text, Text)> {
    if read.None? then None else Some(([c] + read.value.0, read.value.1))
  }

  /** The characters up to the closing quote, and the text behind it. */
  function ReadString(t: Text): (r: Option<(Text, Text)>)
    ensures r.Some? ==> |r.value.1| < |t|
  {
    if t == [] || t[0] < 32 then None
    else if t[0] == 34 then Some(([], t[1..]))
    else if t[0] != 92 then Put(t[0], ReadString(t[1..]))
    else if |t| >= 6 && t[1] == 117 then
      var c := HexUnit(t[2], t[3], t[4], t[5]);
      if c.None? then None else Put(c.value, ReadString(t[6..]))
    else if |t| >= 2 then
      var c := ShortEscape(t[1]);
      if c.None? then None else Put(c.value, ReadString(t[2..]))
    else None
  }

  /** How far digits, signs, points and exponents go; the numeral is kept as its text. */
  function NumeralLength(t: Text): (n: nat)
    ensures n <= |t|
  {
    if t != [] && (48 <= t[0] <= 57 || t[0] == 43 || t[0] == 45 || t[0] == 46 || t[0] == 69 || t[0] == 101) then 1 + NumeralLength(t[1..])
    else 0
  }

  // ---------------------------------------------------------------------------
  // Values (sections 3 to 5)
  // ---------------------------------------------------------------------------

  /** The value a text begins with, and the text behind it. */
  function Read(t: Text): (r: Option<(Value, Text)>)
    ensures r.Some? ==> |r.value.1| < |t|
    decreases |t|, 0
  {
    if t == [] then None
    else if t[0] == 34 then
      var s := ReadString(t[1..]);
      if s.None? then None else Some((String(s.value.0), s.value.1))
    else if t[0] == 91 then
      if |t| >= 2 && t[1] == 93 then Some((Array([]), t[2..]))
      else
        var items := ReadItems(t[1..]);
        if items.None? then None else Some((Array(items.value.0), items.value.1))
    else if t[0] == 123 then
      if |t| >= 2 && t[1] == 125 then Some((Object([]), t[2..]))
      else
        var members := ReadMembers(t[1..]);
        if members.None? then None else Some((Object(members.value.0), members.value.1))
    else if [110, 117, 108, 108] <= t then Some((Null, t[4..]))
    else if [116, 114, 117, 101] <= t then Some((Boolean(true), t[4..]))
    else if [102, 97, 108, 115, 101] <= t then Some((Boolean(false), t[5..]))
    else if 48 <= t[0] <= 57 || t[0] == 45 then
      var n := NumeralLength(t);
      if n == 0 then None else Some((Number(Finite(t[..n])), t[n..]))
    else None
  }

  /** One value or more, with commas between them, up to the bracket. */
  function ReadItems(t: Text): (r: Option<(seq<Value>, Text)>)
    ensures r.Some? ==> |r.value.1| < |t|
    decreases |t|, 1
  {
    var first := Read(t);
    if first.None? || first.value.1 == [] then None
    else
      var (v, rest) := first.value;
      if rest[0] == 93 then Some(([v], rest[1..]))
      else if rest[0] != 44 then None
      else
        var more := ReadItems(rest[1..]);
        if more.None? then None else Some(([v] + more.value.0, more.value.1))
  }

  /** One name and its value. */
  function ReadMember(t: Text): (r: Option<(Member, Text)>)
    ensures r.Some? ==> |r.value.1| < |t|
    decreases |t|, 1
  {
    if t == [] || t[0] != 34 then None
    else
      var key := ReadString(t[1..]);
      if key.None? || key.value.1 == [] || key.value.1[0] != 58 then None
      else
        var v := Read(key.value.1[1..]);
        if v.None? then None else Some((Member(key.value.0, v.value.0), v.value.1))
  }

  function ReadMembers(t: Text): (r: Option<(seq<Member>, Text)>)
    ensures r.Some? ==> |r.value.1| < |t|
    decreases |t|, 2
  {
    var first := ReadMember(t);
    if first.None? || first.value.1 == [] then None
    else
      var (m, rest) := first.value;
      if rest[0] == 125 then Some(([m], rest[1..]))
      else if rest[0] != 44 then None
      else
        var more := ReadMembers(rest[1..]);
        if more.None? then None else Some(([m] + more.value.0, more.value.1))
  }

  // ---------------------------------------------------------------------------
  // Order
  // ---------------------------------------------------------------------------

  /** By code units: the first difference decides, and a proper beginning comes first. */
  ghost predicate Precedes(a: Text, b: Text) {
    exists n: nat :: n <= |a| && n < |b| && a[..n] == b[..n] && (n < |a| ==> a[n] < b[n])
  }

  lemma {:induction false} LessIsPrecedes(a: Text, b: Text)
    ensures Less(a, b) <==> Precedes(a, b)
  {
    if a != [] && b != [] && a[0] == b[0] {
      LessIsPrecedes(a[1..], b[1..]);
      if Precedes(a[1..], b[1..]) {
        var n: nat :| n <= |a[1..]| && n < |b[1..]| && a[1..][..n] == b[1..][..n] && (n < |a[1..]| ==> a[1..][n] < b[1..][n]);
        assert a[..n + 1] == [a[0]] + a[1..][..n] && b[..n + 1] == [b[0]] + b[1..][..n];
      }
      if Precedes(a, b) {
        var n: nat :| n <= |a| && n < |b| && a[..n] == b[..n] && (n < |a| ==> a[n] < b[n]);
        assert a[..n][1..] == a[1..][..n - 1] && b[..n][1..] == b[1..][..n - 1];
      }
    } else if b != [] {
      assert a[..0] == b[..0];
      assert forall n: nat :: 0 < n <= |a| && n < |b| && a[..n] == b[..n] ==> a[0] == a[..n][0] == b[..n][0] == b[0];
    }
  }

  /** Every object names its members in ascending order, and nothing is undefined. */
  ghost predicate IsOrdered(v: Value)
    decreases v, 1
  {
    match v
    case Undefined => false
    case Array(items) => forall i :: 0 <= i < |items| ==> IsOrdered(items[i])
    case Object(members) =>
      && (forall i, j :: 0 <= i < j < |members| ==> Precedes(members[i].key, members[j].key))
      && forall i :: 0 <= i < |members| ==> IsOrdered(members[i].value)
    case _ => true
  }

  // ---------------------------------------------------------------------------
  // Reading a canonical text
  // ---------------------------------------------------------------------------

  /** What is read of a value: null for what JSON cannot say, and the members as they are printed. */
  function Normal(v: Value): Value
    decreases Size(v)
  {
    match v
    case Undefined => Null
    case Number(NegativeZero) => Number(Finite(ZERO))
    case Number(NotFinite) => Null
    case Array(items) => Array(NormalItems(items))
    case Object(members) => Object(NormalMembers(Printed(members)))
    case _ => v
  }

  function NormalItems(items: seq<Value>): (r: seq<Value>)
    ensures |r| == |items|
    decreases ItemsSize(items)
  {
    if items == [] then [] else [Normal(items[0])] + NormalItems(items[1..])
  }

  function NormalMembers(members: seq<Member>): (r: seq<Member>)
    ensures |r| == |members| && forall i :: 0 <= i < |members| ==> r[i].key == members[i].key
    decreases MembersSize(members)
  {
    if members == [] then [] else [Member(members[0].key, Normal(members[0].value))] + NormalMembers(members[1..])
  }

  lemma HexReads(d: CodeUnit)
    requires d < 16
    ensures HexValue(HexDigit(d)) == Some(d)
  {
  }

  lemma HexUnitReads(c: CodeUnit)
    ensures HexUnit(HexDigit(c / 4096), HexDigit(c / 256 % 16), HexDigit(c / 16 % 16), HexDigit(c % 16)) == Some(c)
  {
    hide HexDigit, HexValue;
    HexReads(c / 4096);
    HexReads(c / 256 % 16);
    HexReads(c / 16 % 16);
    HexReads(c % 16);
    Nibbles(c);
  }

  /** One escaped code unit in front of any text. */
  lemma UnitIsRead(c: CodeUnit, y: Text)
    ensures ReadString(EscapeUnit(c) + y) == Put(c, ReadString(y))
  {
    hide HexUnit, HexDigit;
    var t := EscapeUnit(c) + y;
    EscapeUnitShape(c);
    assert t[|EscapeUnit(c)|..] == y;
    if EscapeUnit(c) == UnicodeEscape(c) {
      HexUnitReads(c);
      assert t[2] == HexDigit(c / 4096) && t[3] == HexDigit(c / 256 % 16) && t[4] == HexDigit(c / 16 % 16) && t[5] == HexDigit(c % 16);
    }
  }

  lemma PairIsRead(a: CodeUnit, b: CodeUnit, y: Text)
    requires IsHighSurrogate(a) && IsLowSurrogate(b)
    ensures ReadString([a, b] + y) == Put(a, Put(b, ReadString(y)))
  {
    var t := [a, b] + y;
    assert t[1..] == [b] + y && t[1..][1..] == y;
  }

  lemma {:induction false} StringIsRead(s: Text, x: Text)
    ensures ReadString(Escape(s) + [QUOTE] + x) == Some((s, x))
    decreases |s|
  {
    hide Escape, EscapeUnit, ReadString;
    EscapeFront(s, x);
    if s == [] {
      QuoteEnds(x);
    } else if StartsWithPair(s) {
      StringIsRead(s[2..], x);
      PairIsRead(s[0], s[1], Escape(s[2..]) + [QUOTE] + x);
      assert s[..2] == [s[0], s[1]] && s == [s[0]] + ([s[1]] + s[2..]);
    } else {
      StringIsRead(s[1..], x);
      UnitIsRead(s[0], Escape(s[1..]) + [QUOTE] + x);
      assert s == [s[0]] + s[1..];
    }
  }

  lemma QuoteEnds(x: Text)
    ensures ReadString([QUOTE] + x) == Some(([], x))
  {
  }

  lemma QuotedIsRead(s: Text, x: Text)
    ensures (Quoted(s) + x)[0] == 34 && ReadString((Quoted(s) + x)[1..]) == Some((s, x))
  {
    StringIsRead(s, x);
    assert (Quoted(s) + x)[1..] == Escape(s) + [QUOTE] + x;
  }

  lemma {:induction false} NumeralIsRead(t: Text, x: Text)
    requires Delimited(x) && forall i :: 0 <= i < |t| ==> IsNumeralUnit(t[i])
    ensures NumeralLength(t + x) == |t|
  {
    if t == [] {
      assert t + x == x;
    } else {
      assert (t + x)[1..] == t[1..] + x;
      NumeralIsRead(t[1..], x);
    }
  }

  lemma {:induction false} ValueIsRead(v: Value, x: Text)
    requires WellFormed(v) && Delimited(x)
    ensures Read(Canonical(v) + x) == Some((Normal(v), x))
    decreases Size(v), 0
  {
    match v
    case String(s) =>
      QuotedIsRead(s, x);
    case Array(items) => ArrayIsRead(items, x);
    case Object(members) => ObjectIsRead(members, x);
    case Number(n) => NumberIsRead(n, x);
    case _ => WordIsRead(v, x);
  }

  lemma WordIsRead(v: Value, x: Text)
    requires v.Undefined? || v.Null? || v.Boolean?
    ensures Read(Canonical(v) + x) == Some((Normal(v), x))
  {
    var t := Canonical(v) + x;
    assert t[|Canonical(v)|..] == x;
  }

  lemma NumberIsRead(n: JsNumber, x: Text)
    requires WellFormed(Number(n)) && Delimited(x)
    ensures Read(Canonical(Number(n)) + x) == Some((Normal(Number(n)), x))
  {
    var t := NumberText(n) + x;
    assert t[|NumberText(n)|..] == x && t[..|NumberText(n)|] == NumberText(n);
    if n != NotFinite {
      NumeralIsRead(NumberText(n), x);
      assert t[0] == NumberText(n)[0];
    }
  }

  lemma {:induction false} ArrayIsRead(items: seq<Value>, x: Text)
    requires AllWellFormed(items)
    ensures Read(Canonical(Array(items)) + x) == Some((Normal(Array(items)), x))
    decreases ItemsSize(items), 1
  {
    hide Join, ItemTexts, ReadItems, WellFormed;
    var t := Canonical(Array(items)) + x;
    assert t[1..] == Join(ItemTexts(items)) + ([93] + x);
    if items == [] {
      assert Join(ItemTexts(items)) == [] by { NothingJoined(); }
      assert t[2..] == x && t[1] == 93;
    } else {
      ItemsAreRead(items, x);
      assert t[1] != 93 by { ItemStarts(items, [93] + x); }
    }
  }

  lemma NothingJoined()
    ensures Join(ItemTexts([])) == [] && Join(MemberTexts([])) == []
  {
  }

  lemma ItemStarts(items: seq<Value>, x: Text)
    requires items != [] && AllWellFormed(items)
    ensures var t := Join(ItemTexts(items)) + x; t != [] && t[0] != 93
  {
    StartsByKind(items[0]);
    JoinSplits(ItemTexts(items), x);
  }

  lemma {:induction false} ItemsAreRead(items: seq<Value>, x: Text)
    requires items != [] && AllWellFormed(items)
    ensures ReadItems(Join(ItemTexts(items)) + ([93] + x)) == Some((NormalItems(items), x))
    decreases ItemsSize(items), 0
  {
    hide Read, Canonical, Normal;
    var texts, y := ItemTexts(items), [93] + x;
    JoinSplits(texts, y);
    ValueIsRead(items[0], Rest(texts, y));
    assert y[1..] == x;
    if |items| > 1 {
      ItemsAreRead(items[1..], x);
      assert Rest(texts, y)[1..] == Join(ItemTexts(items[1..])) + y;
    } else {
      assert items[1..] == [] && NormalItems([]) == [];
      assert NormalItems(items) == [Normal(items[0])] + NormalItems(items[1..]);
      assert [Normal(items[0])] == NormalItems(items);
    }
  }

  lemma {:induction false} ObjectIsRead(members: seq<Member>, x: Text)
    requires DistinctKeys(members) && MembersWellFormed(members)
    ensures Read(Canonical(Object(members)) + x) == Some((Normal(Object(members)), x))
    decreases MembersSize(members), 2
  {
    hide Join, MemberTexts, ReadMembers, WellFormed, Printed, NormalMembers;
    var t, printed := Canonical(Object(members)) + x, Printed(members);
    PrintedProperties(members);
    assert t[1..] == Join(MemberTexts(printed)) + ([125] + x);
    if printed == [] {
      assert Join(MemberTexts(printed)) == [] by { NothingJoined(); }
      assert NormalMembers(printed) == [] by { NoMembers(); }
      assert t[2..] == x && t[1] == 125;
    } else {
      MembersAreRead(printed, x);
      assert t[1] != 125 by { MemberStarts(printed, [125] + x); }
    }
  }

  lemma NoMembers()
    ensures NormalMembers([]) == []
  {
  }

  lemma MemberStarts(members: seq<Member>, x: Text)
    requires members != []
    ensures (Join(MemberTexts(members)) + x)[0] == 34
  {
    JoinSplits(MemberTexts(members), x);
  }

  lemma {:induction false} MembersAreRead(members: seq<Member>, x: Text)
    requires members != [] && MembersWellFormed(members)
    ensures ReadMembers(Join(MemberTexts(members)) + ([125] + x)) == Some((NormalMembers(members), x))
    decreases MembersSize(members), 1
  {
    hide ReadMember, Canonical, Normal, Quoted;
    var texts, y := MemberTexts(members), [125] + x;
    JoinSplits(texts, y);
    MemberIsRead(members[0], Rest(texts, y));
    assert y[1..] == x;
    if |members| > 1 {
      MembersAreRead(members[1..], x);
      assert Rest(texts, y)[1..] == Join(MemberTexts(members[1..])) + y;
    } else {
      assert members[1..] == [] && NormalMembers([]) == [];
      assert NormalMembers(members) == [Member(members[0].key, Normal(members[0].value))] + NormalMembers(members[1..]);
      assert [Member(members[0].key, Normal(members[0].value))] == NormalMembers(members);
    }
  }

  lemma {:induction false} MemberIsRead(m: Member, x: Text)
    requires WellFormed(m.value) && Delimited(x)
    ensures ReadMember(Quoted(m.key) + [COLON] + Canonical(m.value) + x) == Some((Member(m.key, Normal(m.value)), x))
    decreases Size(m.value), 1
  {
    hide Read, ReadString, Canonical, Normal, Quoted;
    var t, rest := Quoted(m.key) + [COLON] + Canonical(m.value) + x, [COLON] + Canonical(m.value) + x;
    assert t == Quoted(m.key) + rest;
    QuotedIsRead(m.key, rest);
    assert rest[1..] == Canonical(m.value) + x;
    ValueIsRead(m.value, x);
  }

  // ---------------------------------------------------------------------------
  // What is read means the same and is in order
  // ---------------------------------------------------------------------------

  lemma {:induction false} NormalMeansTheSame(v: Value)
    requires WellFormed(v)
    ensures MeaningOf(Normal(v)) == MeaningOf(v) && IsOrdered(Normal(v)) && !Normal(v).Undefined?
    decreases Size(v)
  {
    hide Printed;
    match v
    case Array(items) => NormalItemsMeanTheSame(items);
    case Object(members) =>
      PrintedProperties(members);
      NormalMembersMeanTheSame(Printed(members));
      NamesAscend(Printed(members));
    case _ =>
  }

  lemma NamesAscend(members: seq<Member>)
    requires Sorted(members)
    ensures forall i, j :: 0 <= i < j < |members| ==> Precedes(members[i].key, members[j].key)
  {
    hide Less, Precedes;
    forall i, j | 0 <= i < j < |members| ensures Precedes(members[i].key, members[j].key) {
      LessIsPrecedes(members[i].key, members[j].key);
    }
  }

  lemma {:induction false} NormalItemsMeanTheSame(items: seq<Value>)
    requires AllWellFormed(items)
    ensures ItemMeanings(NormalItems(items)) == ItemMeanings(items)
    ensures forall i :: 0 <= i < |items| ==> IsOrdered(NormalItems(items)[i])
    decreases ItemsSize(items)
  {
    hide MeaningOf, Normal, IsOrdered, WellFormed;
    if items != [] {
      NormalMeansTheSame(items[0]);
      NormalItemsMeanTheSame(items[1..]);
      assert NormalItems(items)[1..] == NormalItems(items[1..]);
    }
  }

  lemma {:induction false} NormalMembersMeanTheSame(members: seq<Member>)
    requires MembersWellFormed(members) && AllDefined(members)
    ensures MemberMeanings(NormalMembers(members)) == MemberMeanings(members)
    ensures forall i :: 0 <= i < |members| ==> IsOrdered(NormalMembers(members)[i].value)
    decreases MembersSize(members)
  {
    hide MeaningOf, Normal, IsOrdered, WellFormed;
    if members != [] {
      NormalMeansTheSame(members[0].value);
      NormalMembersMeanTheSame(members[1..]);
      assert NormalMembers(members)[1..] == NormalMembers(members[1..]);
    }
  }

  /**
   Main result: a canonical text is JSON. A reader finds a value in front of any text that may
   follow, exactly where it ends; the value means what was printed, and every object in it
   names its members in ascending order, each once.
   */
  lemma CanonicalIsJson(v: Value, x: Text)
    requires WellFormed(v) && Delimited(x)
    ensures var read := Read(Canonical(v) + x);
      read.Some? && read.value.1 == x && MeaningOf(read.value.0) == MeaningOf(v) && IsOrdered(read.value.0)
  {
    hide Read, Canonical;
    ValueIsRead(v, x);
    NormalMeansTheSame(v);
  }
}
