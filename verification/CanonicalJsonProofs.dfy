/** Canonical texts are equal exactly when the values mean the same. */
module CanonicalJsonProofs {
  import opened Wrappers
  import opened JsText
  import opened CanonicalJson

  // ---------------------------------------------------------------------------
  // Reading strings back
  // ---------------------------------------------------------------------------

  lemma HexInjective(a: CodeUnit, b: CodeUnit)
    requires a < 16 && b < 16 && HexDigit(a) == HexDigit(b)
    ensures a == b
  {
  }

  lemma Nibbles(c: CodeUnit)
    ensures c as int == (c / 4096) as int * 4096 + (c / 256 % 16) as int * 256 + (c / 16 % 16) as int * 16 + (c % 16) as int
  {
    var n := c as int;
    assert n / 256 == n / 4096 * 16 + n / 256 % 16;
    assert n / 16 == n / 256 * 16 + n / 16 % 16;
  }

  lemma UnicodeEscapeInjective(c: CodeUnit, d: CodeUnit)
    requires UnicodeEscape(c) == UnicodeEscape(d)
    ensures c == d
  {
    hide HexDigit;
    var e, f := UnicodeEscape(c), UnicodeEscape(d);
    assert e[2] == f[2] && e[3] == f[3] && e[4] == f[4] && e[5] == f[5];
    HexInjective(c / 4096, d / 4096);
    HexInjective(c / 256 % 16, d / 256 % 16);
    HexInjective(c / 16 % 16, d / 16 % 16);
    HexInjective(c % 16, d % 16);
    Nibbles(c);
    Nibbles(d);
  }

  lemma EscapeUnitShape(c: CodeUnit)
    ensures var e := EscapeUnit(c);
      && e != [] && e[0] != QUOTE && !IsHighSurrogate(e[0])
      && (e[0] != BACKSLASH ==> e == [c])
      && (e[0] == BACKSLASH ==> |e| >= 2 && (e[1] == 117 <==> e == UnicodeEscape(c)) && (e[1] != 117 ==> |e| == 2))
  {
  }

  /** The first escape of a text tells the code unit it stands for. */
  lemma EscapeUnitReads(c: CodeUnit, d: CodeUnit, x: Text, y: Text)
    requires EscapeUnit(c) + x == EscapeUnit(d) + y
    ensures c == d && x == y
  {
    var e, f := EscapeUnit(c), EscapeUnit(d);
    EscapeUnitShape(c);
    EscapeUnitShape(d);
    assert (e + x)[0] == e[0] && (f + y)[0] == f[0];
    if e[0] == BACKSLASH {
      assert (e + x)[1] == e[1] && (f + y)[1] == f[1];
    }
    assert |e| == |f|;
    assert e == (e + x)[..|e|] == f;
    if e[0] == BACKSLASH && e[1] == 117 {
      UnicodeEscapeInjective(c, d);
    }
    assert x == (e + x)[|e|..] == (f + y)[|e|..];
  }

  /** An escaped string in its closing quote, seen from the front. */
  lemma EscapeFront(s: Text, x: Text)
    ensures var text := Escape(s) + [QUOTE] + x;
      if s == [] then text == [QUOTE] + x
      else if StartsWithPair(s) then text == s[..2] + (Escape(s[2..]) + [QUOTE] + x)
      else text == EscapeUnit(s[0]) + (Escape(s[1..]) + [QUOTE] + x)
  {
    hide EscapeUnit;
    if s == [] {
      assert Escape(s) + [QUOTE] == [QUOTE];
    } else if StartsWithPair(s) {
      Regroup(s[..2], Escape(s[2..]), [QUOTE], x);
    } else {
      Regroup(EscapeUnit(s[0]), Escape(s[1..]), [QUOTE], x);
    }
  }

  lemma Regroup(a: Text, b: Text, c: Text, d: Text)
    ensures a + b + c + d == a + (b + c + d)
  {
  }

  lemma {:induction false} EscapeReads(s: Text, t: Text, x: Text, y: Text)
    requires Escape(s) + [QUOTE] + x == Escape(t) + [QUOTE] + y
    ensures s == t && x == y
    decreases |s| + |t|
  {
    hide Escape, EscapeUnit, UnicodeEscape;
    var left, right := Escape(s) + [QUOTE] + x, Escape(t) + [QUOTE] + y;
    EscapeFront(s, x);
    EscapeFront(t, y);
    if s != [] { EscapeUnitShape(s[0]); }
    if t != [] { EscapeUnitShape(t[0]); }
    assert left[0] == right[0];
    if s == [] || t == [] {
      assert x == left[1..] && y == right[1..];
    } else if StartsWithPair(s) {
      assert left[..2] == s[..2] && right[..2] == t[..2];
      assert left[2..] == Escape(s[2..]) + [QUOTE] + x && right[2..] == Escape(t[2..]) + [QUOTE] + y;
      EscapeReads(s[2..], t[2..], x, y);
      assert s == s[..2] + s[2..] && t == t[..2] + t[2..];
    } else {
      EscapeUnitReads(s[0], t[0], Escape(s[1..]) + [QUOTE] + x, Escape(t[1..]) + [QUOTE] + y);
      EscapeReads(s[1..], t[1..], x, y);
      assert s == [s[0]] + s[1..] && t == [t[0]] + t[1..];
    }
  }

  lemma QuotedReads(s: Text, t: Text, x: Text, y: Text)
    requires Quoted(s) + x == Quoted(t) + y
    ensures s == t && x == y
  {
    assert (Quoted(s) + x)[1..] == Escape(s) + [QUOTE] + x;
    assert (Quoted(t) + y)[1..] == Escape(t) + [QUOTE] + y;
    EscapeReads(s, t, x, y);
  }

  // ---------------------------------------------------------------------------
  // Reading values back
  // ---------------------------------------------------------------------------

  /** What may follow a printed value: nothing, or a comma or a closing bracket. */
  predicate Delimited(x: Text) {
    x == [] || x[0] == COMMA || x[0] == 93 || x[0] == 125
  }

  lemma NumeralReads(a: Text, b: Text, x: Text, y: Text)
    requires IsNumeral(a) && IsNumeral(b) && Delimited(x) && Delimited(y) && a + x == b + y
    ensures a == b && x == y
  {
    assert forall i :: 0 <= i < |a| ==> IsNumeralUnit((a + x)[i]);
    assert forall i :: 0 <= i < |b| ==> IsNumeralUnit((b + y)[i]);
    assert x != [] ==> (a + x)[|a|] == x[0];
    assert y != [] ==> (b + y)[|b|] == y[0];
    assert a == (a + x)[..|a|] && x == (a + x)[|a|..];
    assert b == (b + y)[..|b|] && y == (b + y)[|b|..];
  }

  /** The first code unit of a printed value tells its kind. */
  function KindOf(v: Value): CodeUnit {
    match v
    case Undefined => 110
    case Null => 110
    case Boolean(b) => if b then 116 else 102
    case Number(NotFinite) => 110
    case Number(_) => 48
    case String(_) => QUOTE
    case Array(_) => 91
    case Object(_) => 123
  }

  lemma StartsByKind(v: Value)
    requires WellFormed(v)
    ensures Canonical(v) != []
    ensures KindOf(v) == 48 ==> 48 <= Canonical(v)[0] <= 57 || Canonical(v)[0] == 45
    ensures KindOf(v) != 48 ==> Canonical(v)[0] == KindOf(v)
  {
  }

  predicate AllWellFormed(items: seq<Value>) {
    forall i :: 0 <= i < |items| ==> WellFormed(items[i])
  }

  predicate MembersWellFormed(members: seq<Member>) {
    forall i :: 0 <= i < |members| ==> WellFormed(members[i].value)
  }

  /** The text behind the first of several joined texts. */
  function Rest(texts: seq<Text>, x: Text): Text
    requires texts != []
  {
    if |texts| == 1 then x else [COMMA] + Join(texts[1..]) + x
  }

  lemma JoinSplits(texts: seq<Text>, x: Text)
    requires texts != []
    ensures Join(texts) + x == texts[0] + Rest(texts, x)
  {
  }

  /** Two joined lists behind equal first texts: both end, or both go on. */
  lemma RestsSplit(a: seq<Text>, b: seq<Text>, x: Text, y: Text)
    requires a != [] && b != [] && x != [] && y != [] && x[0] != COMMA && y[0] != COMMA
    requires Rest(a, x) == Rest(b, y)
    ensures |a| == 1 <==> |b| == 1
    ensures |a| == 1 ==> x == y
    ensures |a| > 1 ==> Join(a[1..]) + x == Join(b[1..]) + y
  {
    assert Rest(a, x)[0] == Rest(b, y)[0];
    if |a| > 1 {
      assert Rest(a, x)[1..] == Join(a[1..]) + x;
      assert Rest(b, y)[1..] == Join(b[1..]) + y;
    }
  }

  lemma {:induction false} CanonicalReads(v: Value, w: Value, x: Text, y: Text)
    requires WellFormed(v) && WellFormed(w) && Delimited(x) && Delimited(y)
    requires Canonical(v) + x == Canonical(w) + y
    ensures MeaningOf(v) == MeaningOf(w) && x == y
    decreases Size(v), 0
  {
    SameKind(v, w, x, y);
    match v
    case String(s) => QuotedReads(s, w.s, x, y);
    case Array(items) => ArrayReads(items, w.items, x, y);
    case Object(members) => ObjectReads(members, w.members, x, y);
    case Number(n) =>
      if n == NotFinite {
        SameTextReads(v, w, x, y);
      } else {
        NumeralReads(NumberText(n), NumberText(w.n), x, y);
      }
    case _ => SameTextReads(v, w, x, y);
  }

  lemma SameKind(v: Value, w: Value, x: Text, y: Text)
    requires WellFormed(v) && WellFormed(w) && Canonical(v) + x == Canonical(w) + y
    ensures KindOf(v) == KindOf(w)
  {
    hide Canonical;
    StartsByKind(v);
    StartsByKind(w);
    assert (Canonical(v) + x)[0] == Canonical(v)[0] && (Canonical(w) + y)[0] == Canonical(w)[0];
  }

  lemma SameTextReads(v: Value, w: Value, x: Text, y: Text)
    requires Canonical(v) == Canonical(w) && Canonical(v) + x == Canonical(w) + y
    ensures x == y
  {
    hide Canonical;
    assert x == (Canonical(v) + x)[|Canonical(v)|..] && y == (Canonical(w) + y)[|Canonical(w)|..];
  }

  lemma {:induction false} ArrayReads(vs: seq<Value>, ws: seq<Value>, x: Text, y: Text)
    requires AllWellFormed(vs) && AllWellFormed(ws) && Canonical(Array(vs)) + x == Canonical(Array(ws)) + y
    ensures ItemMeanings(vs) == ItemMeanings(ws) && x == y
    decreases ItemsSize(vs), 1
  {
    hide Join, ItemTexts, ItemMeanings;
    assert (Canonical(Array(vs)) + x)[1..] == Join(ItemTexts(vs)) + ([93] + x);
    assert (Canonical(Array(ws)) + y)[1..] == Join(ItemTexts(ws)) + ([93] + y);
    ItemsRead(vs, ws, [93] + x, [93] + y);
    assert x == ([93] + x)[1..] && y == ([93] + y)[1..];
  }

  lemma {:induction false} ObjectReads(ms: seq<Member>, ns: seq<Member>, x: Text, y: Text)
    requires DistinctKeys(ms) && DistinctKeys(ns) && MembersWellFormed(ms) && MembersWellFormed(ns)
    requires Canonical(Object(ms)) + x == Canonical(Object(ns)) + y
    ensures MemberMeanings(ms) == MemberMeanings(ns) && x == y
    decreases MembersSize(ms), 1
  {
    hide Join, MemberTexts, MemberMeanings, Sorted;
    assert (Canonical(Object(ms)) + x)[1..] == Join(MemberTexts(Printed(ms))) + ([125] + x);
    assert (Canonical(Object(ns)) + y)[1..] == Join(MemberTexts(Printed(ns))) + ([125] + y);
    PrintedProperties(ms);
    PrintedProperties(ns);
    MembersRead(Printed(ms), Printed(ns), [125] + x, [125] + y);
    assert x == ([125] + x)[1..] && y == ([125] + y)[1..];
  }

  lemma {:induction false} ItemsRead(vs: seq<Value>, ws: seq<Value>, x: Text, y: Text)
    requires AllWellFormed(vs) && AllWellFormed(ws) && x != [] && y != [] && x[0] == y[0] == 93
    requires Join(ItemTexts(vs)) + x == Join(ItemTexts(ws)) + y
    ensures ItemMeanings(vs) == ItemMeanings(ws) && x == y
    decreases ItemsSize(vs), 0
  {
    var a, b := ItemTexts(vs), ItemTexts(ws);
    if vs != [] {
      StartsByKind(vs[0]);
      JoinSplits(a, x);
    }
    if ws != [] {
      StartsByKind(ws[0]);
      JoinSplits(b, y);
    }
    if vs == [] || ws == [] {
      assert (Join(a) + x)[0] == (Join(b) + y)[0];
      assert [] + x == x && [] + y == y;
    } else {
      CanonicalReads(vs[0], ws[0], Rest(a, x), Rest(b, y));
      RestsSplit(a, b, x, y);
      if |vs| > 1 {
        ItemsRead(vs[1..], ws[1..], x, y);
      } else {
        assert vs[1..] == ws[1..] == [];
      }
    }
  }

  /** Same keys and same meanings, position by position. */
  predicate MembersAlike(ms: seq<Member>, ns: seq<Member>) {
    |ms| == |ns| && forall i :: 0 <= i < |ms| ==> ms[i].key == ns[i].key && MeaningOf(ms[i].value) == MeaningOf(ns[i].value)
  }

  predicate AllDefined(members: seq<Member>) {
    forall i :: 0 <= i < |members| ==> !members[i].value.Undefined?
  }

  lemma {:induction false} MembersRead(ms: seq<Member>, ns: seq<Member>, x: Text, y: Text)
    requires MembersWellFormed(ms) && MembersWellFormed(ns) && x != [] && y != [] && x[0] == y[0] == 125
    requires AllDefined(ms) && AllDefined(ns)
    requires Join(MemberTexts(ms)) + x == Join(MemberTexts(ns)) + y
    ensures MemberMeanings(ms) == MemberMeanings(ns) && x == y
    decreases MembersSize(ms), 0
  {
    var a, b := MemberTexts(ms), MemberTexts(ns);
    if ms != [] {
      JoinSplits(a, x);
    }
    if ns != [] {
      JoinSplits(b, y);
    }
    if ms == [] || ns == [] {
      assert (Join(a) + x)[0] == (Join(b) + y)[0];
      assert [] + x == x && [] + y == y;
    } else {
      MemberReads(ms[0], ns[0], Rest(a, x), Rest(b, y));
      RestsSplit(a, b, x, y);
      if |ms| > 1 {
        MembersRead(ms[1..], ns[1..], x, y);
      } else {
        assert ms[1..] == ns[1..] == [];
      }
    }
  }

  lemma {:induction false} MemberReads(m: Member, n: Member, x: Text, y: Text)
    requires WellFormed(m.value) && WellFormed(n.value) && Delimited(x) && Delimited(y)
    requires Quoted(m.key) + [COLON] + Canonical(m.value) + x == Quoted(n.key) + [COLON] + Canonical(n.value) + y
    ensures m.key == n.key && MeaningOf(m.value) == MeaningOf(n.value) && x == y
    decreases Size(m.value), 1
  {
    hide Canonical, Quoted, WellFormed, MeaningOf, Delimited;
    var left, right := [COLON] + Canonical(m.value) + x, [COLON] + Canonical(n.value) + y;
    assert Quoted(m.key) + [COLON] + Canonical(m.value) + x == Quoted(m.key) + left;
    assert Quoted(n.key) + [COLON] + Canonical(n.value) + y == Quoted(n.key) + right;
    QuotedReads(m.key, n.key, left, right);
    assert left[1..] == Canonical(m.value) + x && right[1..] == Canonical(n.value) + y;
    CanonicalReads(m.value, n.value, x, y);
  }

  // ---------------------------------------------------------------------------
  // Sorting keys
  // ---------------------------------------------------------------------------

  predicate Sorted(members: seq<Member>) {
    forall i, j :: 0 <= i < j < |members| ==> Less(members[i].key, members[j].key)
  }

  lemma {:induction false} InsertPermutes(m: Member, sorted: seq<Member>)
    ensures multiset(Insert(m, sorted)) == multiset(sorted) + multiset{m}
  {
    hide Less;
    if sorted != [] && Insert(m, sorted) != [m] + sorted {
      InsertPermutes(m, sorted[1..]);
      assert sorted == [sorted[0]] + sorted[1..];
    }
  }

  /** A list is sorted when its head is below every other key and its tail is sorted. */
  lemma SortedCons(head: Member, tail: seq<Member>)
    ensures Sorted([head] + tail) <==> Sorted(tail) && forall m :: m in tail ==> Less(head.key, m.key)
  {
    hide Less;
    var all := [head] + tail;
    if Sorted(all) {
      forall i, j | 0 <= i < j < |tail| ensures Less(tail[i].key, tail[j].key) {
        assert all[i + 1] == tail[i] && all[j + 1] == tail[j];
      }
      forall m | m in tail ensures Less(head.key, m.key) {
        var i :| 0 <= i < |tail| && tail[i] == m;
        assert all[0] == head && all[i + 1] == m;
      }
    }
  }

  lemma {:induction false} InsertSorts(m: Member, sorted: seq<Member>)
    requires Sorted(sorted) && forall n :: n in sorted ==> n.key != m.key
    ensures Sorted(Insert(m, sorted))
  {
    hide Less, Sorted;
    if sorted == [] {
      SortedCons(m, []);
    } else {
      var head, tail := sorted[0], sorted[1..];
      assert sorted == [head] + tail;
      SortedCons(head, tail);
      LessTotal(head.key, m.key);
      if Less(head.key, m.key) {
        InsertSorts(m, tail);
        InsertPermutes(m, tail);
        forall n | n in Insert(m, tail) ensures Less(head.key, n.key) {
          assert n in multiset(Insert(m, tail));
        }
        SortedCons(head, Insert(m, tail));
      } else {
        forall n | n in sorted ensures Less(m.key, n.key) {
          if n != head {
            LessTransitive(m.key, head.key, n.key);
          }
        }
        SortedCons(m, sorted);
      }
    }
  }

  lemma {:induction false} SortKeeps(members: seq<Member>)
    requires DistinctKeys(members)
    ensures Sorted(SortByKey(members))
    ensures multiset(SortByKey(members)) == multiset(members)
  {
    hide Insert, Less, Sorted;
    if members == [] {
      EmptyIsSorted();
    } else {
      var tail := members[1..];
      assert members == [members[0]] + tail;
      DistinctTail(members);
      SortKeeps(tail);
      forall n | n in SortByKey(tail) ensures n.key != members[0].key {
        assert n in multiset(SortByKey(tail));
      }
      InsertSorts(members[0], SortByKey(tail));
      InsertPermutes(members[0], SortByKey(tail));
    }
  }

  lemma EmptyIsSorted()
    ensures Sorted([])
  {
  }

  lemma DistinctTail(members: seq<Member>)
    requires DistinctKeys(members) && members != []
    ensures DistinctKeys(members[1..]) && forall m :: m in members[1..] ==> m.key != members[0].key
  {
  }

  lemma {:induction false} DefinedSelects(members: seq<Member>)
    ensures AllDefined(Defined(members))
    ensures forall m :: m in Defined(members) ==> m in members
    ensures AllDefined(members) ==> Defined(members) == members
  {
    if members != [] {
      DefinedSelects(members[1..]);
      assert members == [members[0]] + members[1..];
    }
  }

  lemma {:induction false} DefinedMeans(members: seq<Member>)
    ensures MemberMeanings(Defined(members)) == MemberMeanings(members)
  {
    if members != [] {
      var tail := Defined(members[1..]);
      DefinedMeans(members[1..]);
      assert ([members[0]] + tail)[1..] == tail;
    }
  }

  lemma {:induction false} DefinedSorted(members: seq<Member>)
    requires Sorted(members)
    ensures Sorted(Defined(members))
  {
    hide Less, Sorted;
    if members == [] {
      EmptyIsSorted();
    } else {
      var head, tail := members[0], members[1..];
      assert members == [head] + tail;
      SortedCons(head, tail);
      DefinedSorted(tail);
      DefinedSelects(tail);
      SortedCons(head, Defined(tail));
    }
  }

  /** With distinct keys, the meaning of members is read off by key. */
  lemma {:induction false} MeaningByKey(members: seq<Member>, key: Text)
    requires DistinctKeys(members)
    ensures key in MemberMeanings(members) <==> exists m :: m in members && m.key == key && !m.value.Undefined?
    ensures forall m :: m in members && m.key == key && !m.value.Undefined? ==> MemberMeanings(members)[key] == MeaningOf(m.value)
  {
    if members != [] {
      var tail := members[1..];
      assert members == [members[0]] + tail;
      MeaningByKey(tail, key);
      DistinctTail(members);
    }
  }

  /** Order does not matter to the meaning. */
  lemma PermutedMeanings(ms: seq<Member>, ns: seq<Member>)
    requires DistinctKeys(ms) && DistinctKeys(ns) && multiset(ms) == multiset(ns)
    ensures MemberMeanings(ms) == MemberMeanings(ns)
  {
    assert forall m :: m in ms <==> m in multiset(ms);
    assert forall m :: m in ns <==> m in multiset(ns);
    forall key ensures key in MemberMeanings(ms) <==> key in MemberMeanings(ns) {
      MeaningByKey(ms, key);
      MeaningByKey(ns, key);
    }
    forall key | key in MemberMeanings(ms) ensures MemberMeanings(ms)[key] == MemberMeanings(ns)[key] {
      MeaningByKey(ms, key);
      MeaningByKey(ns, key);
    }
  }

  lemma SortedIsDistinct(members: seq<Member>)
    requires Sorted(members)
    ensures DistinctKeys(members)
  {
    forall i, j | 0 <= i < j < |members| ensures members[i].key != members[j].key {
      LessIrreflexive(members[i].key);
    }
  }

  lemma PrintedProperties(members: seq<Member>)
    requires DistinctKeys(members) && MembersWellFormed(members)
    ensures Sorted(Printed(members)) && AllDefined(Printed(members)) && MembersWellFormed(Printed(members))
    ensures MemberMeanings(Printed(members)) == MemberMeanings(members)
  {
    hide Less, Sorted, WellFormed, MemberMeanings, SortByKey, Defined, DistinctKeys;
    SortKeeps(members);
    var sorted := SortByKey(members);
    SortedIsDistinct(sorted);
    PermutedMeanings(sorted, members);
    DefinedSelects(sorted);
    DefinedMeans(sorted);
    DefinedSorted(sorted);
    forall i | 0 <= i < |Printed(members)| ensures WellFormed(Printed(members)[i].value) {
      assert Printed(members)[i] in sorted;
      assert Printed(members)[i] in multiset(sorted);
      assert Printed(members)[i] in members;
    }
  }

  // ---------------------------------------------------------------------------
  // Same meaning, same text
  // ---------------------------------------------------------------------------

  /** Sorted members with the same meaning agree position by position. */
  lemma {:induction false} SortedMembersAlike(ms: seq<Member>, ns: seq<Member>)
    requires Sorted(ms) && Sorted(ns) && AllDefined(ms) && AllDefined(ns)
    requires MemberMeanings(ms) == MemberMeanings(ns)
    ensures MembersAlike(ms, ns)
  {
    SortedIsDistinct(ms);
    SortedIsDistinct(ns);
    if ms != [] { TailMeanings(ms); }
    if ns != [] { TailMeanings(ns); }
    if ms != [] && ns != [] {
      FirstKeyIsLeast(ms, ns);
      FirstKeyIsLeast(ns, ms);
      LessTotal(ms[0].key, ns[0].key);
      SortedMembersAlike(ms[1..], ns[1..]);
    }
  }

  lemma FirstKeyIsLeast(ms: seq<Member>, ns: seq<Member>)
    requires Sorted(ms) && Sorted(ns) && AllDefined(ms) && AllDefined(ns) && ms != [] && ns != []
    requires MemberMeanings(ms) == MemberMeanings(ns)
    ensures !Less(ns[0].key, ms[0].key)
  {
    SortedIsDistinct(ms);
    SortedIsDistinct(ns);
    MeaningByKey(ns, ns[0].key);
    MeaningByKey(ms, ns[0].key);
    assert ns[0] in ns;
    var m :| m in ms && m.key == ns[0].key;
    var i :| 0 <= i < |ms| && ms[i] == m;
    LessTotal(ms[0].key, m.key);
  }

  lemma TailMeanings(ms: seq<Member>)
    requires Sorted(ms) && AllDefined(ms) && ms != []
    ensures MemberMeanings(ms[1..]) == MemberMeanings(ms) - {ms[0].key}
    ensures ms[0].key in MemberMeanings(ms) && MemberMeanings(ms)[ms[0].key] == MeaningOf(ms[0].value)
  {
    hide Sorted, DistinctKeys, Less, MeaningOf;
    SortedIsDistinct(ms);
    DistinctTail(ms);
    MeaningByKey(ms[1..], ms[0].key);
  }

  lemma {:induction false} SameMeaningSameText(v: Value, w: Value)
    requires WellFormed(v) && WellFormed(w) && MeaningOf(v) == MeaningOf(w)
    ensures Canonical(v) == Canonical(w)
    decreases Size(v)
  {
    match v
    case Array(items) => SameItems(items, w.items);
    case Object(members) =>
      PrintedProperties(members);
      PrintedProperties(w.members);
      SortedMembersAlike(Printed(members), Printed(w.members));
      SameMembers(Printed(members), Printed(w.members));
    case _ =>
  }

  lemma {:induction false} SameItems(vs: seq<Value>, ws: seq<Value>)
    requires AllWellFormed(vs) && AllWellFormed(ws) && ItemMeanings(vs) == ItemMeanings(ws)
    ensures ItemTexts(vs) == ItemTexts(ws)
    decreases ItemsSize(vs)
  {
    if vs != [] {
      assert ItemMeanings(vs)[0] == ItemMeanings(ws)[0];
      assert ItemMeanings(vs[1..]) == ItemMeanings(vs)[1..] == ItemMeanings(ws)[1..] == ItemMeanings(ws[1..]);
      SameMeaningSameText(vs[0], ws[0]);
      SameItems(vs[1..], ws[1..]);
    }
  }

  lemma {:induction false} SameMembers(ms: seq<Member>, ns: seq<Member>)
    requires MembersWellFormed(ms) && MembersWellFormed(ns) && MembersAlike(ms, ns)
    ensures MemberTexts(ms) == MemberTexts(ns)
    decreases MembersSize(ms)
  {
    if ms != [] {
      SameMeaningSameText(ms[0].value, ns[0].value);
      SameMembers(ms[1..], ns[1..]);
    }
  }

  // ---------------------------------------------------------------------------
  // Main results
  // ---------------------------------------------------------------------------

  /** Two values have the same canonical text exactly when they mean the same. */
  lemma CanonicalIsExact(v: Value, w: Value)
    requires WellFormed(v) && WellFormed(w)
    ensures Canonical(v) == Canonical(w) <==> MeaningOf(v) == MeaningOf(w)
  {
    if Canonical(v) == Canonical(w) {
      assert Canonical(v) + [] == Canonical(w) + [];
      CanonicalReads(v, w, [], []);
    }
    if MeaningOf(v) == MeaningOf(w) {
      SameMeaningSameText(v, w);
    }
  }

  /** "toolId" and "arguments" */
  const TOOL_ID: Text := [116, 111, 111, 108, 73, 100]
  const ARGUMENTS: Text := [97, 114, 103, 117, 109, 101, 110, 116, 115]

  /** The text whose digest is the request hash of a tool call. */
  function RequestText(toolId: Text, arguments: Value): Text {
    Canonical(Object([Member(TOOL_ID, String(toolId)), Member(ARGUMENTS, arguments)]))
  }

  /** Requests conflict exactly when they name different tools or mean different arguments. */
  lemma RequestTextIsExact(t: Text, a: Value, u: Text, b: Value)
    requires WellFormed(a) && WellFormed(b)
    ensures RequestText(t, a) == RequestText(u, b)
       <==> t == u && MeaningOf(a) == MeaningOf(b) && (a.Undefined? <==> b.Undefined?)
  {
    var ms, ns := [Member(TOOL_ID, String(t)), Member(ARGUMENTS, a)], [Member(TOOL_ID, String(u)), Member(ARGUMENTS, b)];
    assert TOOL_ID[0] != ARGUMENTS[0];
    CanonicalIsExact(Object(ms), Object(ns));
    RequestMeaning(t, a);
    RequestMeaning(u, b);
    var m, n := MemberMeanings(ms), MemberMeanings(ns);
    assert m[TOOL_ID] == Characters(t) && n[TOOL_ID] == Characters(u);
    assert ARGUMENTS in m <==> !a.Undefined?;
    assert ARGUMENTS in n <==> !b.Undefined?;
  }

  lemma RequestMeaning(t: Text, a: Value)
    ensures var base := map[TOOL_ID := Characters(t)];
      MemberMeanings([Member(TOOL_ID, String(t)), Member(ARGUMENTS, a)])
        == if a.Undefined? then base else base[ARGUMENTS := MeaningOf(a)]
  {
    assert TOOL_ID[0] != ARGUMENTS[0];
    var ms := [Member(TOOL_ID, String(t)), Member(ARGUMENTS, a)];
    var one := [Member(ARGUMENTS, a)];
    assert ms[1..] == one && one[1..] == [];
    assert MemberMeanings(one[1..]) == map[];
    var tail := MemberMeanings(one);
    assert tail == if a.Undefined? then map[] else map[ARGUMENTS := MeaningOf(a)];
    assert MemberMeanings(ms) == tail[TOOL_ID := Characters(t)];
  }

  // ---------------------------------------------------------------------------
  // Derived idempotency keys
  // ---------------------------------------------------------------------------

  /** What a derived key is made of, apart from the arguments; absent identifiers are printed as null. */
  datatype CallKey = CallKey(orgId: Text, actorId: Text, credentialId: Option<Text>, sessionId: Option<Text>,
                             requestId: Value, tool: Text)

  /** A JSON-RPC request id: a string, a number, null, or none at all. */
  predicate IsRequestId(id: Value) {
    id.Undefined? || id.Null? || id.String? || (id.Number? && !id.n.NotFinite? && WellFormed(id))
  }

  /** "object", "number" and "string" */
  const OBJECT_TEXT: Text := [111, 98, 106, 101, 99, 116]
  const NUMBER_TEXT: Text := [110, 117, 109, 98, 101, 114]
  const STRING_TEXT: Text := [115, 116, 114, 105, 110, 103]

  /** `typeof` of a request id. */
  function TypeName(id: Value): Text {
    match id
    case Undefined => UNDEFINED_TEXT
    case Number(_) => NUMBER_TEXT
    case String(_) => STRING_TEXT
    case _ => OBJECT_TEXT
  }

  function OrNull(id: Option<Text>): Value {
    if id.Some? then String(id.value) else Null
  }

  /** The list printed for the key, with the digest of the arguments; a list without objects is printed canonically. */
  function KeyParts(c: CallKey, digest: Text): (parts: seq<Value>)
    ensures |parts| == 8
  {
    [String(c.orgId), String(c.actorId), OrNull(c.credentialId), OrNull(c.sessionId),
     String(TypeName(c.requestId)), if c.requestId.Undefined? then Null else c.requestId, String(c.tool), String(digest)]
  }

  /** The text whose digest is the derived key. */
  function DerivedText(c: CallKey, digest: Text): Text {
    Canonical(Array(KeyParts(c, digest)))
  }

  lemma {:induction false} ItemMeaningAt(items: seq<Value>, i: nat)
    requires i < |items|
    ensures ItemMeanings(items)[i] == MeaningOf(items[i])
  {
    if i > 0 {
      ItemMeaningAt(items[1..], i - 1);
    }
  }

  lemma SameItemMeanings(vs: seq<Value>, ws: seq<Value>)
    requires |vs| == |ws|
    ensures MeaningOf(Array(vs)) == MeaningOf(Array(ws)) <==> forall i :: 0 <= i < |vs| ==> MeaningOf(vs[i]) == MeaningOf(ws[i])
  {
    forall i | 0 <= i < |vs|
      ensures ItemMeanings(vs)[i] == MeaningOf(vs[i]) && ItemMeanings(ws)[i] == MeaningOf(ws[i])
    {
      ItemMeaningAt(vs, i);
      ItemMeaningAt(ws, i);
    }
    hide MeaningOf, ItemMeanings;
    MeaningOfArray(vs);
    MeaningOfArray(ws);
    if forall i :: 0 <= i < |vs| ==> MeaningOf(vs[i]) == MeaningOf(ws[i]) {
      assert ItemMeanings(vs) == ItemMeanings(ws);
    }
  }

  lemma MeaningOfArray(items: seq<Value>)
    ensures MeaningOf(Array(items)) == Sequence(ItemMeanings(items))
  {
  }

  lemma TypeNamesDiffer()
    ensures UNDEFINED_TEXT != OBJECT_TEXT && UNDEFINED_TEXT != NUMBER_TEXT && UNDEFINED_TEXT != STRING_TEXT
  {
    assert |UNDEFINED_TEXT| == 9 && |OBJECT_TEXT| == |NUMBER_TEXT| == |STRING_TEXT| == 6;
  }

  /**
   Two calls have the same derived text exactly when they agree in the organisation, actor,
   credential, session, tool, in the request id with its absence, and in what their arguments
   mean; the inner digest must tell these two arguments' texts apart.
   */
  lemma DerivedTextIsExact(c: CallKey, a: Value, d: CallKey, b: Value, digest: Text -> Text)
    requires WellFormed(a) && WellFormed(b) && IsRequestId(c.requestId) && IsRequestId(d.requestId)
    requires digest(Canonical(a)) == digest(Canonical(b)) ==> Canonical(a) == Canonical(b)
    ensures DerivedText(c, digest(Canonical(a))) == DerivedText(d, digest(Canonical(b))) <==>
      && c.orgId == d.orgId && c.actorId == d.actorId && c.credentialId == d.credentialId && c.sessionId == d.sessionId
      && c.tool == d.tool && (c.requestId.Undefined? <==> d.requestId.Undefined?) && MeaningOf(c.requestId) == MeaningOf(d.requestId)
      && MeaningOf(a) == MeaningOf(b)
  {
    hide Canonical, ItemMeanings;
    var (x, y) := (digest(Canonical(a)), digest(Canonical(b)));
    CanonicalIsExact(a, b);
    PartsWellFormed(c, x);
    PartsWellFormed(d, y);
    CanonicalIsExact(Array(KeyParts(c, x)), Array(KeyParts(d, y)));
    SameItemMeanings(KeyParts(c, x), KeyParts(d, y));
    SameParts(c, x, d, y);
  }

  lemma PartsWellFormed(c: CallKey, digest: Text)
    requires IsRequestId(c.requestId)
    ensures WellFormed(Array(KeyParts(c, digest)))
  {
  }

  function OrNothing(id: Option<Text>): Meaning {
    if id.Some? then Characters(id.value) else Nothing
  }

  lemma PartMeanings(c: CallKey, digest: Text)
    ensures var ps := KeyParts(c, digest);
      && MeaningOf(ps[0]) == Characters(c.orgId) && MeaningOf(ps[1]) == Characters(c.actorId)
      && MeaningOf(ps[2]) == OrNothing(c.credentialId) && MeaningOf(ps[3]) == OrNothing(c.sessionId)
      && MeaningOf(ps[4]) == Characters(TypeName(c.requestId)) && MeaningOf(ps[5]) == MeaningOf(c.requestId)
      && MeaningOf(ps[6]) == Characters(c.tool) && MeaningOf(ps[7]) == Characters(digest)
  {
    hide TypeName;
  }

  lemma SameRequestId(x: Value, y: Value)
    requires IsRequestId(x) && IsRequestId(y) && MeaningOf(x) == MeaningOf(y)
    ensures TypeName(x) == TypeName(y) <==> (x.Undefined? <==> y.Undefined?)
  {
    TypeNamesDiffer();
  }

  lemma SameParts(c: CallKey, x: Text, d: CallKey, y: Text)
    requires IsRequestId(c.requestId) && IsRequestId(d.requestId)
    ensures (forall i :: 0 <= i < 8 ==> MeaningOf(KeyParts(c, x)[i]) == MeaningOf(KeyParts(d, y)[i])) <==>
      && c.orgId == d.orgId && c.actorId == d.actorId && c.credentialId == d.credentialId && c.sessionId == d.sessionId
      && c.tool == d.tool && (c.requestId.Undefined? <==> d.requestId.Undefined?) && MeaningOf(c.requestId) == MeaningOf(d.requestId)
      && x == y
  {
    var (ps, qs) := (KeyParts(c, x), KeyParts(d, y));
    PartMeanings(c, x);
    PartMeanings(d, y);
    if MeaningOf(c.requestId) == MeaningOf(d.requestId) {
      SameRequestId(c.requestId, d.requestId);
    }
    hide MeaningOf, KeyParts, TypeName, IsRequestId;
    if forall i :: 0 <= i < 8 ==> MeaningOf(ps[i]) == MeaningOf(qs[i]) {
      assert MeaningOf(ps[0]) == MeaningOf(qs[0]) && MeaningOf(ps[1]) == MeaningOf(qs[1]) && MeaningOf(ps[2]) == MeaningOf(qs[2]);
      assert MeaningOf(ps[3]) == MeaningOf(qs[3]) && MeaningOf(ps[4]) == MeaningOf(qs[4]) && MeaningOf(ps[5]) == MeaningOf(qs[5]);
      assert MeaningOf(ps[6]) == MeaningOf(qs[6]) && MeaningOf(ps[7]) == MeaningOf(qs[7]);
    }
  }

  /** The audit log prints values without `undefined` exactly as requests are hashed. */
  lemma {:induction false} AuditAgrees(v: Value)
    requires WellFormed(v) && Pure(v)
    ensures Audit(v) == Some(Canonical(v))
    decreases Size(v)
  {
    match v
    case Array(items) => AuditItemsAgree(items);
    case Object(members) =>
      SortKeeps(members);
      var sorted := SortByKey(members);
      forall i | 0 <= i < |sorted| ensures WellFormed(sorted[i].value) && Pure(sorted[i].value) {
        assert sorted[i] in multiset(members);
      }
      DefinedSelects(sorted);
      AuditMembersAgree(sorted);
    case _ =>
  }

  lemma {:induction false} AuditItemsAgree(items: seq<Value>)
    requires forall i :: 0 <= i < |items| ==> WellFormed(items[i]) && Pure(items[i])
    ensures AuditItems(items) == ItemTexts(items)
    decreases ItemsSize(items)
  {
    if items != [] {
      AuditAgrees(items[0]);
      AuditItemsAgree(items[1..]);
    }
  }

  lemma {:induction false} AuditMembersAgree(members: seq<Member>)
    requires forall i :: 0 <= i < |members| ==> WellFormed(members[i].value) && Pure(members[i].value)
    ensures AuditMembers(members) == MemberTexts(members)
    decreases MembersSize(members)
  {
    if members != [] {
      AuditAgrees(members[0].value);
      AuditMembersAgree(members[1..]);
    }
  }
}
