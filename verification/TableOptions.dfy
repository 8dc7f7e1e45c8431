/**
 The per-table storage options: the reader of the JSON object they arrive as, and the writer that
 settles them.

 The option struct is a sequence of numbers, one slot per option in the order of the option table;
 a boolean is 0 or 1 and an enumerated value is its position in its name list.
 */
module TableOptions {
  import opened Optional

  const UINT64_LIMIT: nat := 0x1_0000_0000_0000_0000
  const OPTION_COUNT: nat := 15
  const ENCRYPTION_KEY_ID: nat := 12

  datatype Kind = Boolean | Number(low: nat, high: nat) | Compression | Isolation

  type Options = seq<nat>

  datatype Error =
    | NotAnObject | NoName | NoColon | NoValue | UnknownOption | NotYesOrNo | NotANumber | OutOfRange
    | NotRecognised | TrailingText | NoCommaOrBrace

  datatype Outcome = Parsed(opts: Options) | Refused(error: Error)

  /** The value names of the two enumerated options. */
  datatype Names = Names(compression: seq<string>, isolation: seq<string>)

  function OptionName(i: nat): string
    requires i < OPTION_COUNT
  {
    if i == 0 then "keep_values_inline"
    else if i == 1 then "bloom_filter"
    else if i == 2 then "encrypted"
    else if i == 3 then "btree_klog_block_size"
    else if i == 4 then "level_size_ratio"
    else if i == 5 then "min_levels"
    else if i == 6 then "dividing_level_offset"
    else if i == 7 then "bloom_fpr"
    else if i == 8 then "l1_file_count_trigger"
    else if i == 9 then "tombstone_density_trigger"
    else if i == 10 then "tombstone_density_min_entries"
    else if i == 11 then "ttl"
    else if i == ENCRYPTION_KEY_ID then "encryption_key_id"
    else if i == 13 then "compression"
    else "isolation_level"
  }

  function OptionKind(i: nat): Kind
    requires i < OPTION_COUNT
  {
    if i <= 2 then Boolean
    else if i == 3 then Number(512, UINT64_LIMIT - 1)
    else if i == 4 then Number(2, 100)
    else if i == 5 then Number(1, 64)
    else if i == 6 then Number(0, 64)
    else if i == 7 then Number(1, 10000)
    else if i == 8 then Number(1, 1024)
    else if i == 9 then Number(0, 10000)
    else if i == 10 then Number(0, UINT64_LIMIT - 1)
    else if i == 11 then Number(0, UINT64_LIMIT - 1)
    else if i == ENCRYPTION_KEY_ID then Number(1, 255)
    else if i == 13 then Compression
    else Isolation
  }

  function NamesOf(names: Names, k: Kind): seq<string> {
    if k.Compression? then names.compression else names.isolation
  }

  // ---- characters -------------------------------------------------------------------------

  function Lower(c: char): char {
    if 'A' <= c <= 'Z' then c - 'A' + 'a' else c
  }

  predicate EqNocase(a: string, b: string) {
    |a| == |b| && forall i :: 0 <= i < |a| ==> Lower(a[i]) == Lower(b[i])
  }

  predicate IsSpace(c: char) {
    c == ' ' || c == '\t' || c == '\n' || c == '\r'
  }

  predicate IsDigit(c: char) {
    '0' <= c <= '9'
  }

  function Digit(c: char): nat
    requires IsDigit(c)
  {
    c as int - '0' as int
  }

  // ---- numbers ----------------------------------------------------------------------------

  predicate AllDigits(v: string) {
    forall i :: 0 <= i < |v| ==> IsDigit(v[i])
  }

  /** The number a digit string stands for. */
  function DecimalValue(v: string): nat
    requires AllDigits(v)
  {
    if v == "" then 0 else DecimalValue(v[..|v| - 1]) * 10 + Digit(v[|v| - 1])
  }

  function ToNumber(v: string): Option<nat> {
    if v != "" && AllDigits(v) && DecimalValue(v) < UINT64_LIMIT then Some(DecimalValue(v)) else None
  }

  lemma {:induction false} DecimalGrows(v: string, n: nat)
    requires AllDigits(v) && n <= |v|
    ensures AllDigits(v[..n]) && DecimalValue(v[..n]) <= DecimalValue(v)
    decreases |v|
  {
    if n == |v| {
      assert v[..n] == v;
    } else {
      DecimalGrows(v[..|v| - 1], n);
      assert v[..|v| - 1][..n] == v[..n];
    }
  }

  lemma Wraps(n: nat, digit: nat)
    requires digit < 10
    ensures n > (UINT64_LIMIT - 1 - digit) / 10 <==> n * 10 + digit >= UINT64_LIMIT
  {}

  /** to_number: exactly the digit strings whose value is below 2^64, at their value. */
  method ReadNumber(v: string) returns (ok: bool, n: nat)
    ensures ok <==> v != "" && AllDigits(v) && DecimalValue(v) < UINT64_LIMIT
    ensures ok ==> n == DecimalValue(v)
  {
    n := 0;
    if v == "" { return false, 0; }
    for i := 0 to |v|
      invariant AllDigits(v[..i]) && n == DecimalValue(v[..i]) < UINT64_LIMIT
    {
      var c := v[i];
      if c < '0' || c > '9' { return false, 0; }
      var digit := Digit(c);
      assert v[..i + 1][..i] == v[..i];
      Wraps(n, digit);
      if n > (UINT64_LIMIT - 1 - digit) / 10 {
        if AllDigits(v) { DecimalGrows(v, i + 1); }
        return false, 0;
      }
      n := n * 10 + digit;
    }
    assert v[..|v|] == v;
    return true, n;
  }

  /** std::to_string */
  function Decimal(n: nat): (s: string)
    ensures s != "" && AllDigits(s)
  {
    var last: string := [('0' as int + n % 10) as char];
    if n < 10 then last else Decimal(n / 10) + last
  }

  lemma {:induction false} DecimalRoundTrip(n: nat)
    ensures DecimalValue(Decimal(n)) == n
  {
    var s := Decimal(n);
    if n < 10 {
      assert s[..0] == "";
    } else {
      DecimalRoundTrip(n / 10);
      assert s[..|s| - 1] == Decimal(n / 10);
    }
  }

  // ---- values -----------------------------------------------------------------------------

  function ToBool(v: string): Option<nat> {
    if EqNocase(v, "true") || EqNocase(v, "yes") || EqNocase(v, "on") || v == "1" then Some(1)
    else if EqNocase(v, "false") || EqNocase(v, "no") || EqNocase(v, "off") || v == "0" then Some(0)
    else None
  }

  /** The first of the names the value equals, from i on. */
  function FindName(v: string, names: seq<string>, i: nat): (r: Option<nat>)
    requires i <= |names|
    ensures r.Some? ==> i <= r.value < |names|
    decreases |names| - i
  {
    if i == |names| then None else if EqNocase(v, names[i]) then Some(i) else FindName(v, names, i + 1)
  }

  function ToEnum(v: string, names: seq<string>): Option<nat> {
    match FindName(v, names, 0)
    case Some(i) => Some(i)
    case None =>
      match ToNumber(v)
      case None => None
      case Some(n) => if n >= |names| then None else Some(n)
  }

  /** to_enum */
  method ReadEnum(v: string, names: seq<string>) returns (ok: bool, e: nat)
    ensures ToEnum(v, names) == if ok then Some(e) else None
  {
    hide EqNocase, DecimalValue;
    for i := 0 to |names|
      invariant FindName(v, names, 0) == FindName(v, names, i)
    {
      if EqNocase(v, names[i]) { return true, i; }
    }
    var num, n := ReadNumber(v);
    if !num || n >= |names| { return false, 0; }
    return true, n;
  }

  /** The option a name means, looked for from slot i on. */
  function FindOption(name: string, i: nat): (r: Option<nat>)
    requires i <= OPTION_COUNT
    ensures r.Some? ==> i <= r.value < OPTION_COUNT && EqNocase(name, OptionName(r.value))
    decreases OPTION_COUNT - i
  {
    if i == OPTION_COUNT then None else if EqNocase(name, OptionName(i)) then Some(i) else FindOption(name, i + 1)
  }

  /** What a value text means for an option. */
  datatype Reading = Value(n: nat) | Unfit(error: Error)

  function ReadAs(i: nat, names: Names, text: string): Reading
    requires i < OPTION_COUNT
  {
    match OptionKind(i)
    case Boolean => (match ToBool(text) case None => Unfit(NotYesOrNo) case Some(b) => Value(b))
    case Number(low, high) =>
      (match ToNumber(text)
       case None => Unfit(NotANumber)
       case Some(n) => if n < low || n > high then Unfit(OutOfRange) else Value(n))
    case _ =>
      (match ToEnum(text, NamesOf(names, OptionKind(i)))
       case None => Unfit(NotRecognised)
       case Some(e) => Value(e))
  }

  /** A number within its bounds, an enumerated value that has a name. */
  predicate SlotOk(i: nat, names: Names, v: nat)
    requires i < OPTION_COUNT
  {
    match OptionKind(i)
    case Boolean => v <= 1
    case Number(low, high) => low <= v <= high
    case k => v < |NamesOf(names, k)|
  }

  predicate InBounds(o: Options, names: Names)
    requires |o| == OPTION_COUNT
  {
    forall i :: 0 <= i < OPTION_COUNT ==> SlotOk(i, names, o[i])
  }

  /** A reading is within the bounds of its option. */
  lemma ReadingFits(i: nat, names: Names, text: string)
    requires i < OPTION_COUNT && ReadAs(i, names, text).Value?
    ensures SlotOk(i, names, ReadAs(i, names, text).n)
  {
    hide ToNumber;
  }

  /** One named option over the struct. */
  function SetOption(o: Options, names: Names, name: string, text: string): (r: Outcome)
    requires |o| == OPTION_COUNT
    ensures r.Parsed? ==> |r.opts| == OPTION_COUNT
  {
    match FindOption(name, 0)
    case None => Refused(UnknownOption)
    case Some(i) =>
      match ReadAs(i, names, text)
      case Unfit(e) => Refused(e)
      case Value(n) => Parsed(o[i := n])
  }

  // ---- the text ---------------------------------------------------------------------------

  function SkipSpace(s: string): (r: string)
    ensures |r| <= |s|
  {
    if s != "" && IsSpace(s[0]) then SkipSpace(s[1..]) else s
  }

  function Escape(c: char): Option<char> {
    if c == '"' || c == '\\' || c == '/' then Some(c)
    else if c == 'b' then Some('\U{0008}')
    else if c == 'f' then Some('\U{000C}')
    else if c == 'n' then Some('\n')
    else if c == 'r' then Some('\r')
    else if c == 't' then Some('\t')
    else None
  }

  /** The characters up to the closing quote, and the text behind it. */
  function StringBody(s: string): (r: Option<(string, string)>)
    ensures r.Some? ==> |r.value.1| < |s|
  {
    if s == "" then None
    else if s[0] == '"' then Some(("", s[1..]))
    else if s[0] != '\\' then
      (match StringBody(s[1..]) case None => None case Some((t, rest)) => Some(([s[0]] + t, rest)))
    else if |s| < 2 || Escape(s[1]).None? then None
    else (match StringBody(s[2..]) case None => None case Some((t, rest)) => Some(([Escape(s[1]).value] + t, rest)))
  }

  function ReadString(s: string): (r: Option<(string, string)>)
    ensures r.Some? ==> |r.value.1| < |s|
  {
    if s == "" || s[0] != '"' then None else StringBody(s[1..])
  }

  predicate EndsBare(c: char) {
    c == ',' || c == '}' || IsSpace(c)
  }

  /** The length of a bare value, or nothing when it opens a nested one. */
  function BareLength(s: string): (r: Option<nat>)
    ensures r.Some? ==> r.value <= |s|
  {
    if s == "" || EndsBare(s[0]) then Some(0)
    else if s[0] == '{' || s[0] == '[' then None
    else (match BareLength(s[1..]) case None => None case Some(n) => Some(n + 1))
  }

  function ReadValue(s: string): (r: Option<(string, string)>)
    ensures r.Some? ==> |r.value.1| < |s|
  {
    var t := SkipSpace(s);
    if t == "" then None
    else if t[0] == '"' then ReadString(t)
    else
      match BareLength(t)
      case None => None
      case Some(n) => if n == 0 then None else Some((t[..n], t[n..]))
  }

  /** One member: its name and value, and what follows. */
  datatype Member = Member(name: string, value: string, rest: string) | Bad(error: Error)

  function ReadMember(s: string): (m: Member)
    ensures m.Member? ==> |m.rest| < |s|
  {
    match ReadString(SkipSpace(s))
    case None => Bad(NoName)
    case Some((name, t)) =>
      var u := SkipSpace(t);
      if u == "" || u[0] != ':' then Bad(NoColon)
      else
        match ReadValue(u[1..])
        case None => Bad(NoValue)
        case Some((value, rest)) => Member(name, value, rest)
  }

  /** The members of an object, each applied as it is read. */
  function ParseMembers(s: string, names: Names, o: Options): Outcome
    requires |o| == OPTION_COUNT
    decreases |s|
  {
    match ReadMember(s)
    case Bad(e) => Refused(e)
    case Member(name, value, rest) =>
      match SetOption(o, names, name, value)
      case Refused(e) => Refused(e)
      case Parsed(o') =>
        var t := SkipSpace(rest);
        if t != "" && t[0] == ',' then ParseMembers(t[1..], names, o')
        else if t != "" && t[0] == '}' then
          if SkipSpace(t[1..]) == "" then Parsed(o') else Refused(TrailingText)
        else Refused(NoCommaOrBrace)
  }

  /** parse_attributes */
  function Parse(json: string, names: Names, o: Options): Outcome
    requires |o| == OPTION_COUNT
  {
    var s := SkipSpace(json);
    if s == "" then Parsed(o)
    else if s[0] != '{' then Refused(NotAnObject)
    else
      var t := SkipSpace(s[1..]);
      if t != "" && t[0] == '}' then Parsed(o) else ParseMembers(t, names, o)
  }

  // ---- what a parse means -----------------------------------------------------------------

  datatype Pair = Pair(name: string, text: string)

  /** The members written in an object, by the syntax alone. */
  function Members(s: string): Option<seq<Pair>>
    decreases |s|
  {
    match ReadMember(s)
    case Bad(_) => None
    case Member(name, text, rest) =>
      var t := SkipSpace(rest);
      if t != "" && t[0] == ',' then
        (match Members(t[1..]) case None => None case Some(ps) => Some([Pair(name, text)] + ps))
      else if t != "" && t[0] == '}' && SkipSpace(t[1..]) == "" then Some([Pair(name, text)])
      else None
  }

  function ObjectMembers(json: string): Option<seq<Pair>> {
    var s := SkipSpace(json);
    if s == "" then Some([])
    else if s[0] != '{' then None
    else
      var t := SkipSpace(s[1..]);
      if t != "" && t[0] == '}' then Some([]) else Members(t)
  }

  /** The last member that names option i. */
  function LastFor(ps: seq<Pair>, i: nat): Option<string> {
    if ps == [] then None
    else if FindOption(ps[|ps| - 1].name, 0) == Some(i) then Some(ps[|ps| - 1].text)
    else LastFor(ps[..|ps| - 1], i)
  }

  /** Every member names an option and gives it a value it accepts. */
  predicate AllFit(ps: seq<Pair>, names: Names) {
    forall k :: 0 <= k < |ps| ==>
      FindOption(ps[k].name, 0).Some? && ReadAs(FindOption(ps[k].name, 0).value, names, ps[k].text).Value?
  }

  /** The struct with every named option set to the last value given for it, and the rest left alone. */
  predicate UpdatedBy(o: Options, ps: seq<Pair>, names: Names, o': Options)
    requires |o| == OPTION_COUNT
  {
    && |o'| == OPTION_COUNT
    && forall i :: 0 <= i < OPTION_COUNT ==>
         match LastFor(ps, i)
         case None => o'[i] == o[i]
         case Some(text) => ReadAs(i, names, text) == Value(o'[i])
  }

  lemma {:induction false} LastForCons(p: Pair, ps: seq<Pair>, i: nat)
    ensures LastFor([p] + ps, i) ==
      match LastFor(ps, i)
      case Some(t) => Some(t)
      case None => if FindOption(p.name, 0) == Some(i) then Some(p.text) else None
    decreases |ps|
  {
    hide FindOption;
    if ps == [] {
      assert [p] + ps == [p] && [p][..0] == [];
    } else {
      var n := |ps| - 1;
      LastForCons(p, ps[..n], i);
      assert ([p] + ps)[..n + 1] == [p] + ps[..n];
    }
  }

  lemma UpdatedCons(o: Options, p: Pair, ps: seq<Pair>, names: Names, mid: Options, o': Options)
    requires |o| == OPTION_COUNT && SetOption(o, names, p.name, p.text) == Parsed(mid) && |mid| == OPTION_COUNT
    ensures UpdatedBy(mid, ps, names, o') ==> UpdatedBy(o, [p] + ps, names, o')
  {
    hide FindOption, ReadAs;
    if UpdatedBy(mid, ps, names, o') {
      forall i | 0 <= i < OPTION_COUNT
        ensures match LastFor([p] + ps, i)
                case None => o'[i] == o[i]
                case Some(text) => ReadAs(i, names, text) == Value(o'[i])
      {
        LastForCons(p, ps, i);
        assert match LastFor(ps, i)
          case None => o'[i] == mid[i]
          case Some(text) => ReadAs(i, names, text) == Value(o'[i]);
      }
    }
  }

  lemma AllFitCons(p: Pair, ps: seq<Pair>, names: Names)
    ensures AllFit([p] + ps, names) <==> AllFit([p], names) && AllFit(ps, names)
  {
    hide FindOption, ReadAs;
    var all := [p] + ps;
    assert all[0] == p && forall k :: 0 <= k < |ps| ==> all[k + 1] == ps[k];
    if AllFit(all, names) {
      forall k | 0 <= k < |ps|
        ensures FindOption(ps[k].name, 0).Some? && ReadAs(FindOption(ps[k].name, 0).value, names, ps[k].text).Value?
      {
        assert all[k + 1] == ps[k];
      }
    }
  }

  lemma {:induction false} MembersLeftToRight(s: string, names: Names, o: Options)
    requires |o| == OPTION_COUNT
    ensures ParseMembers(s, names, o).Parsed? <==> Members(s).Some? && AllFit(Members(s).value, names)
    ensures ParseMembers(s, names, o).Parsed? ==> UpdatedBy(o, Members(s).value, names, ParseMembers(s, names, o).opts)
    decreases |s|
  {
    hide FindOption, ReadAs, ReadMember;
    var m := ReadMember(s);
    if m.Member? {
      var p, t := Pair(m.name, m.value), SkipSpace(m.rest);
      var r := SetOption(o, names, p.name, p.text);
      OneFits(o, p, names);
      if t != "" && t[0] == ',' {
        if Members(t[1..]).Some? {
          AllFitCons(p, Members(t[1..]).value, names);
        }
        if r.Parsed? {
          MembersLeftToRight(t[1..], names, r.opts);
          if ParseMembers(t[1..], names, r.opts).Parsed? {
            UpdatedCons(o, p, Members(t[1..]).value, names, r.opts, ParseMembers(t[1..], names, r.opts).opts);
          }
        }
      } else if r.Parsed? {
        UpdatedNothing(r.opts, names);
        UpdatedCons(o, p, [], names, r.opts, r.opts);
        assert [p] + [] == [p];
      }
    }
  }

  lemma OneFits(o: Options, p: Pair, names: Names)
    requires |o| == OPTION_COUNT
    ensures SetOption(o, names, p.name, p.text).Parsed? <==> AllFit([p], names)
  {
    assert [p][0] == p;
  }

  lemma UpdatedNothing(o: Options, names: Names)
    requires |o| == OPTION_COUNT
    ensures UpdatedBy(o, [], names, o)
  {}

  /**
   A text parses exactly when it is empty, or an object whose members all name an option and fit it, or
   an empty object with anything after it. The result is the starting struct with each named option at
   the last value given for it.
   */
  lemma ParseIsLeftToRight(json: string, names: Names, o: Options)
    requires |o| == OPTION_COUNT
    ensures Parse(json, names, o).Parsed? <==> ObjectMembers(json).Some? && AllFit(ObjectMembers(json).value, names)
    ensures Parse(json, names, o).Parsed? ==> UpdatedBy(o, ObjectMembers(json).value, names, Parse(json, names, o).opts)
  {
    hide ParseMembers, Members, FindOption, ReadAs;
    UpdatedNothing(o, names);
    var s := SkipSpace(json);
    if s != "" && s[0] == '{' {
      MembersLeftToRight(SkipSpace(s[1..]), names, o);
    }
  }

  /** What a parse leaves is within bounds when what it starts from is. */
  lemma ParseKeepsBounds(json: string, names: Names, o: Options)
    requires |o| == OPTION_COUNT && InBounds(o, names) && Parse(json, names, o).Parsed?
    ensures |Parse(json, names, o).opts| == OPTION_COUNT && InBounds(Parse(json, names, o).opts, names)
  {
    hide ReadAs, SlotOk, ObjectMembers, LastFor, Parse, AllFit;
    ParseIsLeftToRight(json, names, o);
    var o' := Parse(json, names, o).opts;
    forall i | 0 <= i < OPTION_COUNT ensures SlotOk(i, names, o'[i]) {
      var last := LastFor(ObjectMembers(json).value, i);
      if last.Some? {
        ReadingFits(i, names, last.value);
      }
    }
  }

  // ---- the writer -------------------------------------------------------------------------

  function EnumText(names: seq<string>, v: nat): string {
    if v < |names| then "\"" + names[v] + "\"" else Decimal(v)
  }

  function ValueText(i: nat, names: Names, v: nat): string
    requires i < OPTION_COUNT
  {
    match OptionKind(i)
    case Boolean => if v != 0 then "true" else "false"
    case Number(_, _) => Decimal(v)
    case _ => EnumText(NamesOf(names, OptionKind(i)), v)
  }

  function MemberText(i: nat, names: Names, v: nat): string
    requires i < OPTION_COUNT
  {
    "\"" + OptionName(i) + "\": " + ValueText(i, names, v)
  }

  /** The members from slot i on, and the closing brace. */
  function TailText(o: Options, names: Names, i: nat): string
    requires |o| == OPTION_COUNT && i < OPTION_COUNT
    decreases OPTION_COUNT - i
  {
    MemberText(i, names, o[i]) + if i + 1 == OPTION_COUNT then "}" else ", " + TailText(o, names, i + 1)
  }

  /** serialize_attributes */
  function Serialize(o: Options, names: Names): string
    requires |o| == OPTION_COUNT
  {
    "{" + TailText(o, names, 0)
  }

  /** Value names that survive being written between quotes and looked up again. */
  predicate GoodNames(names: seq<string>) {
    && (forall i, j :: 0 <= i < |names| && 0 <= j < |names[i]| ==> names[i][j] != '"' && names[i][j] != '\\')
    && (forall i, j :: 0 <= i < j < |names| ==> !EqNocase(names[j], names[i]))
  }

  /** A struct of the program's types: booleans are booleans. */
  predicate Typed(o: Options, names: Names) {
    && |o| == OPTION_COUNT && GoodNames(names.compression) && GoodNames(names.isolation)
    && forall i :: 0 <= i < OPTION_COUNT && OptionKind(i).Boolean? ==> o[i] <= 1
  }

  /** The slot a name of this length and first letter belongs to. */
  function SlotOf(n: nat, c: char): nat {
    if n == 18 then 0 else if n == 12 then 1 else if n == 9 && c == 'e' then 2
    else if n == 21 && c == 'b' then 3 else if n == 16 then 4 else if n == 10 then 5
    else if n == 21 && c == 'd' then 6 else if n == 9 then 7 else if n == 21 then 8
    else if n == 25 then 9 else if n == 29 then 10 else if n == 3 then 11
    else if n == 17 then 12 else if n == 11 then 13 else 14
  }

  lemma NameShape(i: nat)
    requires i < OPTION_COUNT
    ensures OptionName(i) != "" && SlotOf(|OptionName(i)|, OptionName(i)[0]) == i
    ensures Lower(OptionName(i)[0]) == OptionName(i)[0]
  {}

  /** No two option names are the same up to case. */
  lemma OptionNamesDiffer(i: nat, j: nat)
    requires i < OPTION_COUNT && j < OPTION_COUNT && EqNocase(OptionName(i), OptionName(j))
    ensures i == j
  {
    hide OptionName, SlotOf;
    NameShape(i);
    NameShape(j);
  }

  lemma {:induction false} FindOwnOption(i: nat, k: nat)
    requires i < OPTION_COUNT && k <= i
    ensures FindOption(OptionName(i), k) == Some(i)
    decreases i - k
  {
    hide OptionName;
    if k < i {
      if EqNocase(OptionName(i), OptionName(k)) { OptionNamesDiffer(i, k); }
      FindOwnOption(i, k + 1);
    }
  }

  lemma {:induction false} FindOwnName(names: seq<string>, v: nat, k: nat)
    requires GoodNames(names) && v < |names| && k <= v
    ensures FindName(names[v], names, k) == Some(v)
    decreases v - k
  {
    if k < v {
      FindOwnName(names, v, k + 1);
    }
  }

  predicate Plain(s: string) {
    forall i :: 0 <= i < |s| ==> s[i] != '"' && s[i] != '\\'
  }

  lemma {:induction false} StringBodyOfPlain(s: string, rest: string)
    requires Plain(s)
    ensures StringBody(s + "\"" + rest) == Some((s, rest))
  {
    var t := s + "\"" + rest;
    if s == "" {
      assert t[1..] == rest;
    } else {
      assert t[1..] == s[1..] + "\"" + rest;
      StringBodyOfPlain(s[1..], rest);
      assert [s[0]] + s[1..] == s;
    }
  }

  lemma QuotedIsRead(s: string, rest: string)
    requires Plain(s)
    ensures ReadString("\"" + s + "\"" + rest) == Some((s, rest))
  {
    hide StringBody;
    var t := "\"" + s + "\"" + rest;
    assert t[1..] == s + "\"" + rest;
    StringBodyOfPlain(s, rest);
  }

  /** Text a bare value can have. */
  predicate Bare(s: string) {
    forall i :: 0 <= i < |s| ==> !EndsBare(s[i]) && s[i] != '{' && s[i] != '[' && s[i] != '"'
  }

  lemma {:induction false} BareLengthOf(s: string, rest: string)
    requires Bare(s) && rest != "" && EndsBare(rest[0])
    ensures BareLength(s + rest) == Some(|s|)
  {
    if s == "" {
      assert s + rest == rest;
    } else {
      assert (s + rest)[1..] == s[1..] + rest;
      BareLengthOf(s[1..], rest);
    }
  }

  lemma BareIsRead(s: string, rest: string)
    requires Bare(s) && s != "" && rest != "" && EndsBare(rest[0])
    ensures ReadValue(" " + s + rest) == Some((s, rest))
  {
    hide BareLength;
    var t := " " + s + rest;
    assert t[1..] == s + rest;
    assert SkipSpace(t) == SkipSpace(s + rest) == s + rest;
    BareLengthOf(s, rest);
    assert (s + rest)[..|s|] == s && (s + rest)[|s|..] == rest;
  }

  lemma QuotedValueIsRead(s: string, rest: string)
    requires Plain(s)
    ensures ReadValue(" " + ("\"" + s + "\"") + rest) == Some((s, rest))
  {
    hide ReadString;
    var q := "\"" + s + "\"" + rest;
    var t := " " + ("\"" + s + "\"") + rest;
    assert t[1..] == q;
    assert SkipSpace(t) == SkipSpace(q) == q;
    QuotedIsRead(s, rest);
  }

  lemma NamesArePlain(i: nat)
    requires i < OPTION_COUNT
    ensures Plain(OptionName(i))
  {
    hide Plain;
    ShortNamesArePlain();
    MediumNamesArePlain();
    LongNamesArePlain();
  }

  lemma ShortNamesArePlain()
    ensures Plain("bloom_filter") && Plain("encrypted") && Plain("min_levels") && Plain("bloom_fpr") && Plain("ttl")
    ensures Plain("compression")
  {}

  lemma MediumNamesArePlain()
    ensures Plain("keep_values_inline") && Plain("level_size_ratio")
    ensures Plain("encryption_key_id") && Plain("isolation_level")
  {}

  lemma LongNamesArePlain()
    ensures Plain("btree_klog_block_size") && Plain("dividing_level_offset") && Plain("l1_file_count_trigger")
    ensures Plain("tombstone_density_trigger") && Plain("tombstone_density_min_entries")
  {}

  lemma DigitsAreBare(n: nat)
    ensures Bare(Decimal(n))
  {}

  /** A written value is read back as the value exactly when its slot accepts it. */
  lemma ValueIsRead(i: nat, o: Options, names: Names, rest: string)
    requires i < OPTION_COUNT && |o| == OPTION_COUNT && Typed(o, names) && rest != "" && EndsBare(rest[0])
    ensures var r := ReadValue(" " + ValueText(i, names, o[i]) + rest);
      r.Some? && r.value.1 == rest && (ReadAs(i, names, r.value.0) == Value(o[i]) <==> SlotOk(i, names, o[i]))
  {
    hide ReadValue, GoodNames, Decimal, DecimalValue, FindName, EndsBare;
    match OptionKind(i)
    case Boolean =>
      WordsAreBare();
      BareIsRead(ValueText(i, names, o[i]), rest);
    case Number(low, high) =>
      DigitsAreBare(o[i]);
      BareIsRead(Decimal(o[i]), rest);
      DecimalRoundTrip(o[i]);
    case k =>
      var list := NamesOf(names, k);
      if o[i] < |list| {
        GoodNameIsPlain(list, o[i]);
        QuotedValueIsRead(list[o[i]], rest);
        FindOwnName(list, o[i], 0);
      } else {
        DigitsAreBare(o[i]);
        BareIsRead(Decimal(o[i]), rest);
        FoundIsListed(Decimal(o[i]), list, 0);
      }
  }

  lemma {:induction false} FoundIsListed(v: string, names: seq<string>, i: nat)
    requires i <= |names|
    ensures FindName(v, names, i).Some? ==> FindName(v, names, i).value < |names|
    decreases |names| - i
  {
    hide EqNocase;
    if i < |names| {
      FoundIsListed(v, names, i + 1);
    }
  }

  lemma WordsAreBare()
    ensures Bare("true") && Bare("false") && ToBool("true") == Some(1) && ToBool("false") == Some(0)
  {
    assert !EqNocase("false", "true") && !EqNocase("false", "yes") && !EqNocase("false", "on");
  }

  lemma GoodNameIsPlain(names: seq<string>, v: nat)
    requires GoodNames(names) && v < |names|
    ensures Plain(names[v])
  {}

  lemma MemberIsRead(i: nat, o: Options, names: Names, rest: string)
    requires i < OPTION_COUNT && |o| == OPTION_COUNT && Typed(o, names) && rest != "" && EndsBare(rest[0])
    ensures var m := ReadMember(MemberText(i, names, o[i]) + rest);
      m.Member? && m.rest == rest && m.name == OptionName(i) &&
      (ReadAs(i, names, m.value) == Value(o[i]) <==> SlotOk(i, names, o[i]))
  {
    hide ReadValue, ReadString, OptionName, ReadAs, ValueText, Typed, EndsBare, SlotOk;
    NamesArePlain(i);
    var v := ValueText(i, names, o[i]);
    var s := MemberText(i, names, o[i]) + rest;
    var t := ": " + v + rest;
    assert s == "\"" + OptionName(i) + "\"" + t;
    assert SkipSpace(s) == s;
    QuotedIsRead(OptionName(i), t);
    assert SkipSpace(t) == t && t[1..] == " " + v + rest;
    ValueIsRead(i, o, names, rest);
  }

  /** Leading blanks of a member do not matter. */
  lemma SpaceBeforeMember(s: string)
    ensures ReadMember(" " + s) == ReadMember(s)
  {
    assert (" " + s)[1..] == s;
  }

  /** What the reader does after a member has set the struct to next. */
  function AfterMember(rest: string, names: Names, next: Options): Outcome
    requires |next| == OPTION_COUNT
  {
    var t := SkipSpace(rest);
    if t != "" && t[0] == ',' then ParseMembers(t[1..], names, next)
    else if t != "" && t[0] == '}' then
      if SkipSpace(t[1..]) == "" then Parsed(next) else Refused(TrailingText)
    else Refused(NoCommaOrBrace)
  }

  lemma ParseOneMember(s: string, names: Names, cur: Options, slot: nat)
    requires |cur| == OPTION_COUNT && ReadMember(s).Member? && slot < OPTION_COUNT
    requires FindOption(ReadMember(s).name, 0) == Some(slot)
    ensures ParseMembers(s, names, cur) ==
      match ReadAs(slot, names, ReadMember(s).value)
      case Unfit(e) => Refused(e)
      case Value(n) => AfterMember(ReadMember(s).rest, names, cur[slot := n])
  {
    hide ReadMember, FindOption, ReadAs;
  }

  /** The text behind the member of slot i. */
  function RestText(o: Options, names: Names, i: nat): string
    requires |o| == OPTION_COUNT && i < OPTION_COUNT
  {
    if i + 1 == OPTION_COUNT then "}" else ", " + TailText(o, names, i + 1)
  }

  lemma RestIsRead(o: Options, names: Names, i: nat, next: Options)
    requires |o| == OPTION_COUNT && i < OPTION_COUNT && |next| == OPTION_COUNT
    ensures EndsBare(RestText(o, names, i)[0])
    ensures AfterMember(RestText(o, names, i), names, next) ==
      if i + 1 == OPTION_COUNT then Parsed(next) else ParseMembers(TailText(o, names, i + 1), names, next)
  {
    hide ReadMember, SetOption, MemberText, TailText;
    var rest := RestText(o, names, i);
    assert SkipSpace(rest) == rest;
    if i + 1 == OPTION_COUNT {
      assert rest[1..] == "";
    } else {
      var t := TailText(o, names, i + 1);
      assert rest[1..] == " " + t;
      SpaceBeforeMember(t);
    }
  }

  /** One member of the written text: its slot is set, and the reader goes on with the next one. */
  lemma TailStep(o: Options, names: Names, i: nat, cur: Options) returns (a: Reading)
    requires |o| == OPTION_COUNT && Typed(o, names) && i < OPTION_COUNT && |cur| == OPTION_COUNT
    ensures a == Value(o[i]) <==> SlotOk(i, names, o[i])
    ensures a.Unfit? ==> ParseMembers(TailText(o, names, i), names, cur).Refused?
    ensures a.Value? ==>
      ParseMembers(TailText(o, names, i), names, cur) ==
      if i + 1 == OPTION_COUNT then Parsed(cur[i := a.n])
      else ParseMembers(TailText(o, names, i + 1), names, cur[i := a.n])
  {
    hide ReadMember, OptionName, ReadAs, Typed, MemberText, FindOption, SlotOk, ParseMembers, AfterMember;
    var s := TailText(o, names, i);
    RestIsRead(o, names, i, cur);
    assert s == MemberText(i, names, o[i]) + RestText(o, names, i);
    MemberIsRead(i, o, names, RestText(o, names, i));
    FindOwnOption(i, 0);
    ParseOneMember(s, names, cur, i);
    a := ReadAs(i, names, ReadMember(s).value);
    if a.Value? {
      RestIsRead(o, names, i, cur[i := a.n]);
    }
  }

  lemma {:induction false} TailIsRead(o: Options, names: Names, i: nat, cur: Options)
    requires |o| == OPTION_COUNT && Typed(o, names) && InBounds(o, names)
    requires i < OPTION_COUNT && |cur| == OPTION_COUNT && cur[..i] == o[..i]
    ensures ParseMembers(TailText(o, names, i), names, cur) == Parsed(o)
    decreases OPTION_COUNT - i
  {
    hide ParseMembers, TailText, Typed, SlotOk;
    var _ := TailStep(o, names, i, cur);
    var next := cur[i := o[i]];
    assert next[..i + 1] == cur[..i] + [o[i]] == o[..i + 1];
    if i + 1 == OPTION_COUNT {
      assert next == next[..i + 1] == o[..i + 1] == o;
    } else {
      TailIsRead(o, names, i + 1, next);
    }
  }

  /** A slot that does not accept its value comes back different, if the text is accepted at all. */
  lemma {:induction false} TailIsMisread(o: Options, names: Names, i: nat, cur: Options, bad: nat)
    requires |o| == OPTION_COUNT && Typed(o, names) && bad < OPTION_COUNT && !SlotOk(bad, names, o[bad])
    requires i < OPTION_COUNT && |cur| == OPTION_COUNT && (bad < i ==> cur[bad] != o[bad])
    ensures ParseMembers(TailText(o, names, i), names, cur) != Parsed(o)
    decreases OPTION_COUNT - i
  {
    hide ParseMembers, TailText, Typed, SlotOk;
    var a := TailStep(o, names, i, cur);
    if a.Value? {
      var next := cur[i := a.n];
      assert bad < i + 1 ==> next[bad] != o[bad];
      if i + 1 < OPTION_COUNT {
        TailIsMisread(o, names, i + 1, next, bad);
      }
    }
  }

  /**
   Reading what was written gives the options back, whatever the struct held before, exactly when
   every number is within its bounds and every enumerated value has a name.
   */
  lemma ParseOfSerialized(o: Options, names: Names, start: Options)
    requires |o| == OPTION_COUNT && Typed(o, names) && |start| == OPTION_COUNT
    ensures Parse(Serialize(o, names), names, start) == Parsed(o) <==> InBounds(o, names)
  {
    hide ParseMembers, Typed, OptionName, ValueText, SlotOk;
    var s := Serialize(o, names);
    var t := TailText(o, names, 0);
    assert SkipSpace(s) == s && s[1..] == t;
    assert t[0] == '"';
    assert SkipSpace(t) == t;
    if InBounds(o, names) {
      TailIsRead(o, names, 0, start);
    } else {
      var bad :| 0 <= bad < OPTION_COUNT && !SlotOk(bad, names, o[bad]);
      TailIsMisread(o, names, 0, start, bad);
    }
  }
}
