/** Typed command-line options, the `--json` flag among them, and the input they add up to. */
module CliOptions {
  import opened Wrappers
  import opened Sequences

  /** An element of an array option; attendees are records with an e-mail address. */
  datatype Entry = Plain(s: string) | Email(address: string)

  datatype FieldValue =
    | True
    | Text(s: string)
    | Number(n: int)
    | List(entries: seq<Entry>)
    | Other(json: string)

  type Record = map<string, FieldValue>

  datatype OptionSpec = OptionSpec(arrays: map<string, string>, strings: map<string, string>, numbers: map<string, string>,
                                   booleans: map<string, string>, enums: map<string, set<string>>)

  /** `Number(value)` where that is an integer. */
  type NumberReader = string -> Option<int>

  predicate IsFlag(s: string) {
    "--" <= s
  }

  // ---------------------------------------------------------------------------
  // Values
  // ---------------------------------------------------------------------------

  /** What `String.trim` removes. */
  predicate IsSpace(c: char) {
    var n := c as int;
    9 <= n <= 13 || n in {0x20, 0xA0, 0x1680, 0x2028, 0x2029, 0x202F, 0x205F, 0x3000, 0xFEFF} || 0x2000 <= n <= 0x200A
  }

  function Trim(s: string): string {
    if s != "" && IsSpace(s[0]) then Trim(s[1..])
    else if s != "" && IsSpace(s[|s| - 1]) then Trim(s[..|s| - 1])
    else s
  }

  function Split(s: string): (parts: seq<string>)
    ensures parts != []
  {
    if s == "" then [""]
    else
      var rest := Split(s[1..]);
      if s[0] == ',' then [""] + rest else [[s[0]] + rest[0]] + rest[1..]
  }

  function NonEmptyTrimmed(parts: seq<string>): seq<string> {
    if parts == [] then []
    else (if Trim(parts[0]) != "" then [Trim(parts[0])] else []) + NonEmptyTrimmed(parts[1..])
  }

  /** `parseCommaSeparatedValues` */
  function CommaSeparated(value: string): seq<string> {
    NonEmptyTrimmed(Split(value))
  }

  function Entries(field: string, values: seq<string>): (r: seq<Entry>)
    ensures |r| == |values|
  {
    seq(|values|, i requires 0 <= i < |values| => if field == "attendees" then Email(values[i]) else Plain(values[i]))
  }

  function Existing(input: Record, field: string): seq<Entry> {
    if field in input && input[field].List? then input[field].entries else []
  }

  /** One flag with its value. */
  function SetValue(flag: string, value: string, spec: OptionSpec, number: NumberReader, input: Record): Option<Record> {
    if flag in spec.arrays then
      var field := spec.arrays[flag];
      Some(input[field := List(Existing(input, field) + Entries(field, CommaSeparated(value)))])
    else if flag in spec.strings then
      if flag in spec.enums && value !in spec.enums[flag] then None else Some(input[spec.strings[flag] := Text(value)])
    else if flag in spec.numbers then
      var n := number(value);
      if n.None? || n.value > MAX_SAFE_INTEGER || n.value < 1 then None else Some(input[spec.numbers[flag] := Number(n.value)])
    else None
  }

  // ---------------------------------------------------------------------------
  // The parser
  // ---------------------------------------------------------------------------

  /** The flags, left to right, on top of `input`; `None` is a usage error. */
  function ParseFlags(flags: seq<string>, spec: OptionSpec, number: NumberReader, input: Record): Option<Record>
    decreases |flags|
  {
    if flags == [] then Some(input)
    else if flags[0] in spec.booleans then ParseFlags(flags[1..], spec, number, input[spec.booleans[flags[0]] := True])
    else if |flags| < 2 || IsFlag(flags[1]) then None
    else
      var next := SetValue(flags[0], flags[1], spec, number, input);
      if next.None? then None else ParseFlags(flags[2..], spec, number, next.value)
  }

  datatype JsonArgument =
    | Empty
    | Inline(value: string, overrides: Option<Record>)
    | Stdin(overrides: Option<Record>)

  /** `splitJsonFlag`: the base and the remaining flags. */
  function SplitJson(args: seq<string>): Option<(JsonArgument, seq<string>)> {
    var index := IndexOf(args, "--json");
    if index.None? then Some((Empty, args))
    else
      var i := index.value;
      var inline := i + 1 < |args| && !IsFlag(args[i + 1]);
      var flags := args[..i] + args[if inline then i + 2 else i + 1..];
      if "--json" in flags then None
      else Some((if inline then Inline(args[i + 1], None) else Stdin(None), flags))
  }

  /** `JSON.parse` of a text, and `JSON.stringify` of a record. */
  datatype Json = Json(parse: string -> Parsed, stringify: Record -> string)
  datatype Parsed = Object(members: Record) | NoObject | Malformed

  /** What the flags can say: no value of another shape, and no number JavaScript would round. */
  predicate IsFlagRecord(r: Record) {
    forall field :: field in r ==>
      match r[field]
      case Number(n) => 1 <= n <= MAX_SAFE_INTEGER
      case Other(_) => false
      case _ => true
  }

  ghost predicate IsJson(j: Json) {
    forall r :: IsFlagRecord(r) ==> j.parse(j.stringify(r)) == Object(r) && Trim(j.stringify(r)) != ""
  }

  function WithOverrides(base: JsonArgument, overrides: Record, j: Json): JsonArgument {
    if overrides == map[] then base
    else
      match base
      case Empty => Inline(j.stringify(overrides), None)
      case Inline(value, _) => Inline(value, Some(overrides))
      case Stdin(_) => Stdin(Some(overrides))
  }

  /** `parseTypedOptions`, proved against the recursive reading of the flags. */
  method ParseTypedOptions(args: seq<string>, spec: OptionSpec, number: NumberReader, j: Json) returns (r: Option<JsonArgument>)
    ensures r == TypedOptions(args, spec, number, j)
  {
    var split := SplitJson(args);
    if split.None? {
      return None;
    }
    var (base, flags) := split.value;
    var input: Record := map[];
    var index := 0;
    while index < |flags|
      invariant 0 <= index <= |flags|
      invariant ParseFlags(flags, spec, number, map[]) == ParseFlags(flags[index..], spec, number, input)
    {
      var flag := flags[index];
      assert flags[index..][1..] == flags[index + 1..];
      if flag in spec.booleans {
        input := input[spec.booleans[flag] := True];
        index := index + 1;
        continue;
      }
      if index + 1 == |flags| || IsFlag(flags[index + 1]) {
        return None;
      }
      assert flags[index..][2..] == flags[index + 2..];
      var next := SetValue(flag, flags[index + 1], spec, number, input);
      if next.None? {
        return None;
      }
      input := next.value;
      index := index + 2;
    }
    r := Some(WithOverrides(base, input, j));
  }

  function TypedOptions(args: seq<string>, spec: OptionSpec, number: NumberReader, j: Json): Option<JsonArgument> {
    var split := SplitJson(args);
    if split.None? then None
    else
      var input := ParseFlags(split.value.1, spec, number, map[]);
      if input.None? then None else Some(WithOverrides(split.value.0, input.value, j))
  }

  /** `mergeJsonOverrides`; `None` is a usage error. */
  function Merge(parsed: Parsed, overrides: Option<Record>): Option<Parsed> {
    if overrides.None? then Some(parsed)
    else if !parsed.Object? then None
    else Some(Object(parsed.members + overrides.value))
  }

  /** `resolveToolInput`, with the text that standard input would give. */
  function ResolveInput(argument: JsonArgument, stdin: string, j: Json): Option<Parsed> {
    if argument.Empty? then Some(Object(map[]))
    else
      var raw := if argument.Inline? then argument.value else stdin;
      if Trim(raw) == "" then Merge(Object(map[]), argument.overrides)
      else
        var parsed := j.parse(raw);
        if parsed.Malformed? then None else Merge(parsed, argument.overrides)
  }

  // ---------------------------------------------------------------------------
  // Printing options and reading them back
  // ---------------------------------------------------------------------------

  /** A flag of the command line with what it sets. */
  datatype Setting = Setting(flag: string, value: FieldValue)

  function FieldOf(flag: string, spec: OptionSpec): string {
    if flag in spec.booleans then spec.booleans[flag]
    else if flag in spec.arrays then spec.arrays[flag]
    else if flag in spec.strings then spec.strings[flag]
    else if flag in spec.numbers then spec.numbers[flag]
    else ""
  }

  function Raw(e: Entry): string {
    if e.Plain? then e.s else e.address
  }

  function JoinCommas(entries: seq<Entry>): string {
    if entries == [] then ""
    else if |entries| == 1 then Raw(entries[0])
    else Raw(entries[0]) + "," + JoinCommas(entries[1..])
  }

  /** An array element the command line can carry. */
  predicate IsListable(e: Entry, field: string) {
    e.Email? == (field == "attendees") && Raw(e) != "" && ',' !in Raw(e) && Trim(Raw(e)) == Raw(e)
  }

  /** A value that fits its flag; the number printer is an inverse of the reader. */
  predicate Fits(s: Setting, spec: OptionSpec, number: NumberReader, numeral: int -> string) {
    if s.flag in spec.booleans then s.value.True?
    else if s.flag in spec.arrays then
      s.value.List? && forall e :: e in s.value.entries ==> IsListable(e, spec.arrays[s.flag])
    else if s.flag in spec.strings then
      s.value.Text? && (s.flag in spec.enums ==> s.value.s in spec.enums[s.flag])
    else
      && s.flag in spec.numbers && s.value.Number? && 1 <= s.value.n <= MAX_SAFE_INTEGER
      && number(numeral(s.value.n)) == Some(s.value.n)
  }

  function Tokens(s: Setting, numeral: int -> string): seq<string> {
    match s.value
    case True => [s.flag]
    case Text(t) => [s.flag, t]
    case Number(n) => [s.flag, numeral(n)]
    case List(entries) => [s.flag, JoinCommas(entries)]
    case Other(_) => [s.flag]
  }

  /** The value, as it is printed, begins like a flag. */
  predicate IsDashed(s: Setting, numeral: int -> string) {
    var tokens := Tokens(s, numeral);
    |tokens| == 2 && IsFlag(tokens[1])
  }

  predicate NoneDashed(settings: seq<Setting>, numeral: int -> string) {
    forall s :: s in settings ==> !IsDashed(s, numeral)
  }

  function AllTokens(settings: seq<Setting>, numeral: int -> string): seq<string> {
    if settings == [] then [] else Tokens(settings[0], numeral) + AllTokens(settings[1..], numeral)
  }

  /** What the settings say together: lists of one field add up, and otherwise the last one counts. */
  function RecordOf(settings: seq<Setting>, spec: OptionSpec): Record {
    if settings == [] then map[]
    else
      var before, s := RecordOf(settings[..|settings| - 1], spec), settings[|settings| - 1];
      before[FieldOf(s.flag, spec) := Combined(before, FieldOf(s.flag, spec), s.value)]
  }

  function Combined(input: Record, field: string, value: FieldValue): FieldValue {
    if value.List? && field in input && input[field].List? then List(input[field].entries + value.entries) else value
  }

  ghost predicate Printable(settings: seq<Setting>, spec: OptionSpec, number: NumberReader, numeral: int -> string) {
    forall s :: s in settings ==> Fits(s, spec, number, numeral) && IsFlag(s.flag) && s.flag != "--json"
  }

  lemma {:induction false} SplitOne(s: string)
    requires ',' !in s
    ensures Split(s) == [s]
  {
    if s != "" {
      assert ',' !in s[1..] by {
        assert s == [s[0]] + s[1..];
      }
      SplitOne(s[1..]);
      assert [s[0]] + s[1..] == s;
    }
  }

  lemma {:induction false} SplitAtComma(s: string, rest: string)
    requires ',' !in s
    ensures Split(s + "," + rest) == [s] + Split(rest)
  {
    var all := s + "," + rest;
    if s == "" {
      assert all[1..] == rest;
    } else {
      assert s == [s[0]] + s[1..];
      assert all[1..] == s[1..] + "," + rest;
      SplitAtComma(s[1..], rest);
      assert ([s[1..]] + Split(rest))[1..] == Split(rest);
      assert [s[0]] + s[1..] == s;
    }
  }

  lemma ShortListRoundTrip(entries: seq<Entry>, field: string)
    requires |entries| <= 1 && forall e :: e in entries ==> IsListable(e, field)
    ensures Entries(field, CommaSeparated(JoinCommas(entries))) == entries
  {
    if entries == [] {
      assert Split("") == [""];
      assert [""][1..] == [];
    } else {
      hide Trim;
      var raw := Raw(entries[0]);
      assert entries[0] in entries;
      SplitOne(raw);
      assert [raw][1..] == [];
      assert NonEmptyTrimmed([raw]) == [raw];
    }
  }

  lemma {:induction false} ListRoundTrip(entries: seq<Entry>, field: string)
    requires forall e :: e in entries ==> IsListable(e, field)
    ensures Entries(field, CommaSeparated(JoinCommas(entries))) == entries
  {
    var values := CommaSeparated(JoinCommas(entries));
    if entries != [] {
      assert entries[0] in entries;
    }
    if |entries| <= 1 {
      ShortListRoundTrip(entries, field);
    } else {
      hide Trim;
      var rest := entries[1..];
      assert entries == [entries[0]] + rest;
      SplitAtComma(Raw(entries[0]), JoinCommas(rest));
      ListRoundTrip(rest, field);
      assert ([Raw(entries[0])] + Split(JoinCommas(rest)))[1..] == Split(JoinCommas(rest));
      assert values == [Raw(entries[0])] + CommaSeparated(JoinCommas(rest));
      forall i | 0 <= i < |entries| ensures Entries(field, values)[i] == entries[i] {
        if i > 0 {
          assert entries[i] == Entries(field, CommaSeparated(JoinCommas(rest)))[i - 1];
        }
      }
    }
  }

  // ---------------------------------------------------------------------------
  // List values as they are typed
  // ---------------------------------------------------------------------------

  predicate IsBlank(s: string) {
    forall i :: 0 <= i < |s| ==> IsSpace(s[i])
  }

  /** Trimming takes the white space off both ends and nothing else. */
  lemma {:induction false} TrimIsExact(before: string, core: string, after: string)
    requires IsBlank(before) && IsBlank(after)
    requires core != "" ==> !IsSpace(core[0]) && !IsSpace(core[|core| - 1])
    ensures Trim(before + core + after) == core
    decreases |before| + |after|
  {
    hide IsSpace;
    var s := before + core + after;
    if before != "" {
      assert s[0] == before[0] && s[1..] == before[1..] + core + after;
      TrimIsExact(before[1..], core, after);
    } else if after != "" && core != "" {
      assert s[0] == core[0] && s[|s| - 1] == after[|after| - 1] && s[..|s| - 1] == before + core + after[..|after| - 1];
      TrimIsExact(before, core, after[..|after| - 1]);
    } else if after != "" {
      assert s[0] == after[0] && s[1..] == before + core + after[1..];
      TrimIsExact(before, core, after[1..]);
    } else {
      assert s == core;
    }
  }

  /** An entry with white space around it; an empty one has nothing else. */
  datatype Padded = Padded(before: string, core: string, after: string)

  predicate IsEntry(p: Padded) {
    && IsBlank(p.before) && IsBlank(p.after) && ',' !in p.before + p.core + p.after
    && (p.core != "" ==> !IsSpace(p.core[0]) && !IsSpace(p.core[|p.core| - 1]))
  }

  function Typed(ps: seq<Padded>): string
    requires ps != []
  {
    var first := ps[0].before + ps[0].core + ps[0].after;
    if |ps| == 1 then first else first + "," + Typed(ps[1..])
  }

  function Cores(ps: seq<Padded>): seq<string> {
    if ps == [] then [] else (if ps[0].core == "" then [] else [ps[0].core]) + Cores(ps[1..])
  }

  /** A list as it is typed, with white space and empty entries, is read as its entries in order. */
  lemma {:induction false} TypedListReads(ps: seq<Padded>)
    requires ps != [] && forall p :: p in ps ==> IsEntry(p)
    ensures CommaSeparated(Typed(ps)) == Cores(ps)
  {
    hide Trim, IsBlank, IsSpace;
    var p := ps[0];
    assert p in ps;
    var first := p.before + p.core + p.after;
    TrimIsExact(p.before, p.core, p.after);
    if |ps| == 1 {
      SplitOne(first);
      assert [first][1..] == [] && ps[1..] == [];
      assert NonEmptyTrimmed([first]) == (if p.core != "" then [p.core] else []) + NonEmptyTrimmed([]);
      assert Cores(ps) == (if p.core == "" then [] else [p.core]) + Cores([]);
    } else {
      SplitAtComma(first, Typed(ps[1..]));
      assert ([first] + Split(Typed(ps[1..])))[1..] == Split(Typed(ps[1..]));
      TypedListReads(ps[1..]);
    }
  }

  /** One printed setting is read as that setting, or refused. */
  lemma SettingReads(s: Setting, rest: seq<string>, spec: OptionSpec, number: NumberReader, numeral: int -> string, input: Record)
    requires Fits(s, spec, number, numeral)
    ensures var field := FieldOf(s.flag, spec);
      ParseFlags(Tokens(s, numeral) + rest, spec, number, input)
        == if IsDashed(s, numeral) then None else ParseFlags(rest, spec, number, input[field := Combined(input, field, s.value)])
  {
    hide JoinCommas, CommaSeparated, Entries;
    var tokens := Tokens(s, numeral) + rest;
    if s.flag in spec.booleans {
      assert tokens[1..] == rest;
    } else {
      assert tokens[2..] == rest;
      if s.flag in spec.arrays {
        ListRoundTrip(s.value.entries, spec.arrays[s.flag]);
        assert [] + s.value.entries == s.value.entries;
      }
    }
  }

  lemma {:induction false} SettingsRead(settings: seq<Setting>, k: nat, spec: OptionSpec, number: NumberReader, numeral: int -> string)
    requires Printable(settings, spec, number, numeral) && k <= |settings|
    ensures ParseFlags(AllTokens(settings[k..], numeral), spec, number, RecordOf(settings[..k], spec))
         == if NoneDashed(settings[k..], numeral) then Some(RecordOf(settings, spec)) else None
    decreases |settings| - k
  {
    hide Fits, Tokens, FieldOf, SetValue, IsDashed, IsFlag;
    if k == |settings| {
      assert settings[..k] == settings;
    } else {
      var s, input := settings[k], RecordOf(settings[..k], spec);
      SettingsRead(settings, k + 1, spec, number, numeral);
      assert settings[k..][1..] == settings[k + 1..] && settings[..k + 1][..k] == settings[..k];
      assert settings[k..] == [s] + settings[k + 1..];
      SettingReads(s, AllTokens(settings[k + 1..], numeral), spec, number, numeral, input);
    }
  }

  /** The elements the settings list for a field, in order. */
  function EntriesFor(settings: seq<Setting>, field: string, spec: OptionSpec): seq<Entry> {
    if settings == [] then []
    else
      (if FieldOf(settings[0].flag, spec) == field && settings[0].value.List? then settings[0].value.entries else [])
      + EntriesFor(settings[1..], field, spec)
  }

  lemma {:induction false} EntriesForMore(settings: seq<Setting>, last: Setting, field: string, spec: OptionSpec)
    ensures EntriesFor(settings + [last], field, spec)
         == EntriesFor(settings, field, spec)
          + if FieldOf(last.flag, spec) == field && last.value.List? then last.value.entries else []
  {
    if settings == [] {
      assert [last][1..] == [];
    } else {
      assert (settings + [last])[1..] == settings[1..] + [last];
      EntriesForMore(settings[1..], last, field, spec);
    }
  }

  /** A repeated array flag adds its elements in order, also under several names of one field. */
  lemma {:induction false} ListsAddUp(settings: seq<Setting>, field: string, spec: OptionSpec)
    requires forall s :: s in settings && FieldOf(s.flag, spec) == field ==> s.value.List?
    ensures field in RecordOf(settings, spec) <==> exists s :: s in settings && FieldOf(s.flag, spec) == field
    ensures field in RecordOf(settings, spec) ==> RecordOf(settings, spec)[field] == List(EntriesFor(settings, field, spec))
    ensures field !in RecordOf(settings, spec) ==> EntriesFor(settings, field, spec) == []
  {
    hide FieldOf;
    if settings != [] {
      var front, last := settings[..|settings| - 1], settings[|settings| - 1];
      assert settings == front + [last];
      assert last in settings;
      ListsAddUp(front, field, spec);
      EntriesForMore(front, last, field, spec);
      assert [] + EntriesFor(settings, field, spec) == EntriesFor(settings, field, spec);
    }
  }

  /** Any other value counts when no later setting names its field. */
  lemma {:induction false} LastValueCounts(settings: seq<Setting>, k: nat, spec: OptionSpec)
    requires k < |settings| && !settings[k].value.List?
    requires forall i :: k < i < |settings| ==> FieldOf(settings[i].flag, spec) != FieldOf(settings[k].flag, spec)
    ensures var field := FieldOf(settings[k].flag, spec);
      field in RecordOf(settings, spec) && RecordOf(settings, spec)[field] == settings[k].value
  {
    hide FieldOf;
    if k < |settings| - 1 {
      LastValueCounts(settings[..|settings| - 1], k, spec);
    }
  }

  /** A flag that takes a value, with one it can have. */
  predicate IsGoodUse(flag: string, value: string, spec: OptionSpec, number: NumberReader) {
    || flag in spec.arrays
    || (flag in spec.strings && (flag in spec.enums ==> value in spec.enums[flag]))
    || (flag !in spec.strings && flag in spec.numbers && number(value).Some? && 1 <= number(value).value <= 9_007_199_254_740_991)
  }

  /** Switches stand alone; any other flag has a value behind it that does not begin with two dashes. */
  predicate AreGood(flags: seq<string>, spec: OptionSpec, number: NumberReader) {
    if flags == [] then true
    else if flags[0] in spec.booleans then AreGood(flags[1..], spec, number)
    else
      && |flags| >= 2 && !("--" <= flags[1]) && IsGoodUse(flags[0], flags[1], spec, number)
      && AreGood(flags[2..], spec, number)
  }

  /** Unknown flags, missing values, values outside an enumeration and bad numbers are usage errors, and nothing else is. */
  lemma {:induction false} RefusalIsExact(flags: seq<string>, spec: OptionSpec, number: NumberReader, input: Record)
    ensures ParseFlags(flags, spec, number, input).Some? <==> AreGood(flags, spec, number)
    decreases |flags|
  {
    hide CommaSeparated, Entries, Existing;
    if flags == [] {
    } else if flags[0] in spec.booleans {
      RefusalIsExact(flags[1..], spec, number, input[spec.booleans[flags[0]] := True]);
    } else if |flags| >= 2 {
      var next := SetValue(flags[0], flags[1], spec, number, input);
      if next.Some? {
        RefusalIsExact(flags[2..], spec, number, next.value);
      }
    }
  }

  /**
   Main result: settings that fit the specification, printed as flags, are read back as the
   record they describe if and only if no value begins like a flag; otherwise they are refused.
   */
  lemma OptionsRoundTrip(settings: seq<Setting>, spec: OptionSpec, number: NumberReader, numeral: int -> string)
    requires Printable(settings, spec, number, numeral)
    ensures ParseFlags(AllTokens(settings, numeral), spec, number, map[]) == Some(RecordOf(settings, spec))
       <==> NoneDashed(settings, numeral)
    ensures !NoneDashed(settings, numeral) ==> ParseFlags(AllTokens(settings, numeral), spec, number, map[]) == None
  {
    SettingsRead(settings, 0, spec, number, numeral);
    assert settings[0..] == settings && settings[..0] == [];
  }

  /** Printed settings contain no `--json`. */
  lemma {:induction false} NoJsonFlag(settings: seq<Setting>, spec: OptionSpec, number: NumberReader, numeral: int -> string)
    requires forall s :: s in settings ==> Fits(s, spec, number, numeral) && s.flag != "--json" && !IsDashed(s, numeral)
    ensures "--json" !in AllTokens(settings, numeral)
    ensures settings != [] ==> AllTokens(settings, numeral) != [] && AllTokens(settings, numeral)[0] == settings[0].flag
  {
    if settings != [] {
      NoJsonFlag(settings[1..], spec, number, numeral);
      assert settings == [settings[0]] + settings[1..];
      assert IsFlag("--json");
    }
  }

  lemma {:induction false} TokensConcat(a: seq<Setting>, b: seq<Setting>, numeral: int -> string)
    ensures AllTokens(a + b, numeral) == AllTokens(a, numeral) + AllTokens(b, numeral)
  {
    if a == [] {
      assert a + b == b;
    } else {
      assert (a + b)[1..] == a[1..] + b;
      TokensConcat(a[1..], b, numeral);
    }
  }

  // ---------------------------------------------------------------------------
  // Where `--json` may stand
  // ---------------------------------------------------------------------------

  /** `--json` with its text, or without one, in front of `after`. */
  predicate IsJsonGroup(group: seq<string>, after: seq<string>) {
    || (|group| == 2 && group[0] == "--json" && !IsFlag(group[1]))
    || (group == ["--json"] && (after != [] ==> IsFlag(after[0])))
  }

  function BaseOf(group: seq<string>): JsonArgument {
    if |group| == 2 then Inline(group[1], None) else Stdin(None)
  }

  /** The one `--json` is found with its text wherever it stands; a second one is an error. */
  lemma SplitAtJson(before: seq<string>, group: seq<string>, after: seq<string>)
    requires IsJsonGroup(group, after)
    ensures SplitJson(before + group + after)
         == if "--json" in before + after then None else Some((BaseOf(group), before + after))
  {
    var args := before + group + after;
    var i := IndexOf(args, "--json");
    assert args[|before|] == "--json" && IsFlag("--json");
    assert forall k :: 0 <= k < |before| ==> args[k] == before[k];
    if "--json" in before {
      JsonTwice(args, i.value, |before|);
    } else {
      assert i == Some(|before|);
      assert args[..|before|] == before && args[|before| + |group|..] == after;
    }
  }

  /** What is left of the arguments still holds a `--json` behind the first. */
  lemma JsonTwice(args: seq<string>, first: nat, second: nat)
    requires first < second < |args| && args[second] == "--json" && IndexOf(args, "--json") == Some(first)
    ensures SplitJson(args) == None
  {
    assert IsFlag(args[second]);
    hide IsFlag, IndexOf;
    var inline := first + 1 < |args| && !IsFlag(args[first + 1]);
    var next := if inline then first + 2 else first + 1;
    assert args[next..][second - next] == "--json";
  }

  /**
   Main result: `--json`, with its text or without, means the same wherever it stands among any
   arguments as at their end, usage errors included.
   */
  lemma JsonFlagMoves(before: seq<string>, group: seq<string>, after: seq<string>, spec: OptionSpec, number: NumberReader, j: Json)
    requires IsJsonGroup(group, after)
    ensures TypedOptions(before + group + after, spec, number, j) == TypedOptions(before + after + group, spec, number, j)
  {
    hide SplitJson, ParseFlags;
    SplitAtJson(before, group, after);
    SplitAtJson(before + after, group, []);
    assert before + after + group + [] == before + after + group;
    assert before + after + [] == before + after;
  }

  /**
   Main result: the input that arguments with `--json` add up to. The JSON is the text behind it,
   or standard input; the fields of the flags around it lie on top of its object, on top of
   nothing if it is blank, and are an error beside anything else.
   */
  lemma JsonInputIsExact(before: seq<string>, group: seq<string>, after: seq<string>, stdin: string,
                         spec: OptionSpec, number: NumberReader, j: Json)
    requires IsJsonGroup(group, after) && "--json" !in before + after
    ensures var argument, flags := TypedOptions(before + group + after, spec, number, j), ParseFlags(before + after, spec, number, map[]);
      && (argument.Some? <==> flags.Some?)
      && (argument.Some? ==>
            ResolveInput(argument.value, stdin, j)
              == var raw := if |group| == 2 then group[1] else stdin;
                 if IsBlank(raw) then Some(Object(flags.value))
                 else match j.parse(raw)
                   case Malformed => None
                   case Object(members) => Some(Object(members + flags.value))
                   case NoObject => if flags.value == map[] then Some(NoObject) else None)
  {
    hide SplitJson, ParseFlags, Trim, IsBlank, ResolveInput, WithOverrides, IsFlag;
    var flags := ParseFlags(before + after, spec, number, map[]);
    SplitAtJson(before, group, after);
    if flags.Some? {
      BaseResolves(group, after, flags.value, stdin, j);
    }
  }

  lemma BaseResolves(group: seq<string>, after: seq<string>, overrides: Record, stdin: string, j: Json)
    requires IsJsonGroup(group, after)
    ensures ResolveInput(WithOverrides(BaseOf(group), overrides, j), stdin, j)
      == var raw := if |group| == 2 then group[1] else stdin;
         if IsBlank(raw) then Some(Object(overrides))
         else match j.parse(raw)
           case Malformed => None
           case Object(members) => Some(Object(members + overrides))
           case NoObject => if overrides == map[] then Some(NoObject) else None
  {
    hide Trim, IsBlank, IsFlag;
    var raw := if |group| == 2 then group[1] else stdin;
    BlankIsTrimmed(raw);
    assert map[] + overrides == overrides;
    var parsed := j.parse(raw);
    if parsed.Object? {
      assert parsed.members + map[] == parsed.members;
    }
  }

  lemma {:induction false} BlankIsTrimmed(s: string)
    ensures Trim(s) == "" <==> IsBlank(s)
    decreases |s|
  {
    hide IsSpace;
    if s != "" && IsSpace(s[0]) {
      BlankIsTrimmed(s[1..]);
      assert s == [s[0]] + s[1..];
    } else if s != "" && IsSpace(s[|s| - 1]) {
      BlankIsTrimmed(s[..|s| - 1]);
      assert s[..|s| - 1][0] == s[0];
    }
  }

  /** So an object keeps its members, those the flags name aside. */
  lemma FlagsOverrideJson(before: seq<string>, text: string, after: seq<string>, stdin: string,
                          spec: OptionSpec, number: NumberReader, j: Json)
    requires "--json" !in before + after && ParseFlags(before + after, spec, number, map[]).Some?
    requires !IsFlag(text) && Trim(text) != "" && j.parse(text).Object?
    ensures var argument := TypedOptions(before + ["--json", text] + after, spec, number, j);
      && argument.Some?
      && ResolveInput(argument.value, stdin, j)
           == Some(Object(j.parse(text).members + ParseFlags(before + after, spec, number, map[]).value))
  {
    hide SplitJson, ParseFlags, Trim, ResolveInput, WithOverrides, IsFlag, TypedOptions, IsBlank;
    BlankIsTrimmed(text);
    JsonInputIsExact(before, ["--json", text], after, stdin, spec, number, j);
  }

  /** Settings printed on both sides of the text are read back as one record on top of the object. */
  lemma SettingsOverrideJson(a: seq<Setting>, b: seq<Setting>, text: string, stdin: string,
                             spec: OptionSpec, number: NumberReader, numeral: int -> string, j: Json)
    requires Printable(a + b, spec, number, numeral) && NoneDashed(a + b, numeral)
    requires !IsFlag(text) && Trim(text) != "" && j.parse(text).Object?
    ensures var argument := TypedOptions(AllTokens(a, numeral) + ["--json", text] + AllTokens(b, numeral), spec, number, j);
      argument.Some? && ResolveInput(argument.value, stdin, j) == Some(Object(j.parse(text).members + RecordOf(a + b, spec)))
  {
    hide Fits, ParseFlags, Trim, ResolveInput, TypedOptions, RecordOf;
    OptionsRoundTrip(a + b, spec, number, numeral);
    TokensConcat(a, b, numeral);
    NoJsonFlag(a + b, spec, number, numeral);
    FlagsOverrideJson(AllTokens(a, numeral), text, AllTokens(b, numeral), stdin, spec, number, j);
  }

  /** Whatever flags are read, they say nothing JSON could not carry. */
  lemma {:induction false} ParsedIsFlagRecord(flags: seq<string>, spec: OptionSpec, number: NumberReader, input: Record)
    requires IsFlagRecord(input) && ParseFlags(flags, spec, number, input).Some?
    ensures IsFlagRecord(ParseFlags(flags, spec, number, input).value)
    decreases |flags|
  {
    if flags == [] {
    } else if flags[0] in spec.booleans {
      ParsedIsFlagRecord(flags[1..], spec, number, input[spec.booleans[flags[0]] := True]);
    } else {
      ParsedIsFlagRecord(flags[2..], spec, number, SetValue(flags[0], flags[1], spec, number, input).value);
    }
  }

  /** Without `--json` the record the flags are read as is the whole input, for any flags. */
  lemma FlagsAlone(flags: seq<string>, stdin: string, spec: OptionSpec, number: NumberReader, j: Json)
    requires "--json" !in flags && ParseFlags(flags, spec, number, map[]).Some? && IsJson(j)
    ensures var argument := TypedOptions(flags, spec, number, j);
      argument.Some? && ResolveInput(argument.value, stdin, j) == Some(Object(ParseFlags(flags, spec, number, map[]).value))
  {
    hide ParseFlags, Trim;
    ParsedIsFlagRecord(flags, spec, number, map[]);
    assert IndexOf(flags, "--json").None?;
  }
}
