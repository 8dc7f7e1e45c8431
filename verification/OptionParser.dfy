/**
 The program's reader and writer of the table options: a cursor over the text that sets the struct as
 it goes, and the writer that appends member by member.
 */
module OptionParser {
  import opened Optional
  import opened OptionMeaning
  import opened TableOptions

  /** skip_space */
  method SkipSpaceFrom(json: string, start: nat) returns (pos: nat)
    requires start <= |json|
    ensures start <= pos <= |json| && json[pos..] == SkipSpace(json[start..])
  {
    pos := start;
    while pos < |json| && IsSpace(json[pos])
      invariant start <= pos <= |json| && SkipSpace(json[pos..]) == SkipSpace(json[start..])
    {
      assert json[pos..][1..] == json[pos + 1..];
      pos := pos + 1;
    }
  }

  function Prefixed(t: string, r: Option<(string, string)>): Option<(string, string)> {
    match r
    case None => None
    case Some((u, rest)) => Some((t + u, rest))
  }

  lemma PrefixedStep(t: string, c: char, r: Option<(string, string)>)
    ensures Prefixed(t, Prefixed([c], r)) == Prefixed(t + [c], r)
  {
    if r.Some? {
      assert t + ([c] + r.value.0) == t + [c] + r.value.0;
    }
  }

  lemma PrefixedNothing(r: Option<(string, string)>)
    ensures Prefixed("", r) == r
  {
    if r.Some? {
      assert "" + r.value.0 == r.value.0;
    }
  }

  /** read_string */
  method ReadStringFrom(json: string, start: nat) returns (ok: bool, pos: nat, out: string)
    requires start <= |json|
    ensures start <= pos <= |json|
    ensures ReadString(json[start..]) == if ok then Some((out, json[pos..])) else None
  {
    pos, out := start, "";
    if pos >= |json| || json[pos] != '"' { return false, pos, out; }
    assert json[start..][1..] == json[start + 1..];
    pos := pos + 1;
    PrefixedNothing(StringBody(json[pos..]));
    while pos < |json|
      invariant start < pos <= |json|
      invariant StringBody(json[start + 1..]) == Prefixed(out, StringBody(json[pos..]))
      decreases |json| - pos
    {
      ghost var s := json[pos..];
      assert s[1..] == json[pos + 1..];
      var c := json[pos];
      pos := pos + 1;
      if c == '"' {
        assert out + "" == out;
        return true, pos, out;
      }
      if c != '\\' {
        PrefixedStep(out, c, StringBody(json[pos..]));
        out := out + [c];
        continue;
      }
      if pos >= |json| { return false, pos, out; }
      assert s[2..] == json[pos + 1..];
      var e := Escape(json[pos]);
      pos := pos + 1;
      if e.None? { return false, pos, out; }
      PrefixedStep(out, e.value, StringBody(json[pos..]));
      out := out + [e.value];
    }
    return false, pos, out;
  }

  /** read_value */
  method ReadValueFrom(json: string, start: nat) returns (ok: bool, pos: nat, out: string)
    requires start <= |json|
    ensures start <= pos <= |json|
    ensures ReadValue(json[start..]) == if ok then Some((out, json[pos..])) else None
  {
    hide ReadString, SkipSpace;
    out := "";
    pos := SkipSpaceFrom(json, start);
    if pos >= |json| { return false, pos, out; }
    if json[pos] == '"' {
      ok, pos, out := ReadStringFrom(json, pos);
      return;
    }
    var first := pos;
    ghost var t := json[first..];
    while pos < |json| && !EndsBare(json[pos])
      invariant first <= pos <= |json|
      invariant BareLength(t) == match BareLength(json[pos..]) case None => None case Some(n) => Some(n + pos - first)
    {
      assert json[pos..][1..] == json[pos + 1..];
      if json[pos] == '{' || json[pos] == '[' { return false, pos, out; }
      pos := pos + 1;
    }
    assert t[..pos - first] == json[first..pos] && t[pos - first..] == json[pos..];
    if pos == first { return false, pos, out; }
    return true, pos, json[first..pos];
  }

  /** The loop over the option table. */
  method FindOptionIndex(name: string) returns (ok: bool, i: nat)
    ensures FindOption(name, 0) == if ok then Some(i) else None
    ensures ok ==> i < OPTION_COUNT
  {
    hide EqNocase, OptionName;
    for k := 0 to OPTION_COUNT
      invariant FindOption(name, 0) == FindOption(name, k)
    {
      if EqNocase(name, OptionName(k)) { return true, k; }
    }
    return false, 0;
  }

  /** The switch on the option's kind. */
  method ReadOption(i: nat, names: Names, text: string) returns (r: Reading)
    requires i < OPTION_COUNT
    ensures r == ReadAs(i, names, text)
  {
    hide DecimalValue, AllDigits, ToEnum, ToBool;
    match OptionKind(i) {
      case Boolean =>
        var b := ToBool(text);
        return if b.None? then Unfit(NotYesOrNo) else Value(b.value);
      case Number(low, high) =>
        var ok, n := ReadNumber(text);
        if !ok { return Unfit(NotANumber); }
        if n < low || n > high { return Unfit(OutOfRange); }
        return Value(n);
      case k =>
        var ok, e := ReadEnum(text, NamesOf(names, k));
        if !ok { return Unfit(NotRecognised); }
        return Value(e);
    }
  }

  /** The syntax of one member: its name, the colon and its value. */
  method ReadMemberFrom(json: string, start: nat) returns (error: Option<Error>, pos: nat, name: string, text: string)
    requires start <= |json|
    ensures start <= pos <= |json|
    ensures ReadMember(json[start..]) == match error case Some(e) => Bad(e) case None => Member(name, text, json[pos..])
    ensures error.None? ==> start < pos
  {
    hide ReadString, ReadValue, SkipSpace;
    text := "";
    var ok;
    pos := SkipSpaceFrom(json, start);
    ok, pos, name := ReadStringFrom(json, pos);
    if !ok { return Some(NoName), pos, name, text; }
    pos := SkipSpaceFrom(json, pos);
    if pos >= |json| || json[pos] != ':' { return Some(NoColon), pos, name, text; }
    assert json[pos..][1..] == json[pos + 1..];
    pos := pos + 1;
    ok, pos, text := ReadValueFrom(json, pos);
    if !ok { return Some(NoValue), pos, name, text; }
    return None, pos, name, text;
  }

  /**
   parse_attributes, writing the struct as it reads. What a refused text has already written stays
   written.
   */
  method ParseAttributes(json: string, names: Names, opts: array<nat>) returns (error: Option<Error>)
    requires opts.Length == OPTION_COUNT
    modifies opts
    ensures error.None? <==> ObjectMembers(json).Some? && AllSet(ObjectMembers(json).value, names)
    ensures error.None? ==> Settled(old(opts[..]), ObjectMembers(json).value, names, opts[..])
    ensures Parse(json, names, old(opts[..])) == match error case None => Parsed(opts[..]) case Some(e) => Refused(e)
  {
    hide ReadMember, ReadAs, FindOption, SkipSpace, ParseMembers, ObjectMembers, AllSet, Settled;
    assert json[0..] == json;
    ghost var start := opts[..];
    ParseDenotes(json, names, start);
    var p := SkipSpaceFrom(json, 0);
    if p >= |json| { return None; }
    if json[p] != '{' { return Some(NotAnObject); }
    assert json[p..][1..] == json[p + 1..];
    p := SkipSpaceFrom(json, p + 1);
    if p < |json| && json[p] == '}' { return None; }
    ghost var first := p;
    while true
      invariant p <= |json|
      invariant ParseMembers(json[first..], names, start) == ParseMembers(json[p..], names, opts[..])
      decreases |json| - p
    {
      var name, text;
      ghost var s, cur := json[p..], opts[..];
      ghost var before := p;
      error, p, name, text := ReadMemberFrom(json, p);
      if error.Some? {
        BadMember(s, names, cur);
        return;
      }
      var known, i := FindOptionIndex(name);
      if !known {
        UnknownMember(s, names, cur);
        return Some(UnknownOption);
      }
      ParseOneMember(s, names, cur, i);
      var r := ReadOption(i, names, text);
      if r.Unfit? { return Some(r.error); }
      opts[i] := r.n;
      assert opts[..] == cur[i := r.n];
      p := SkipSpaceFrom(json, p);
      if p < |json| && json[p] == ',' {
        assert json[p..][1..] == json[p + 1..];
        p := p + 1;
        continue;
      }
      if p < |json| && json[p] == '}' {
        assert json[p..][1..] == json[p + 1..];
        p := SkipSpaceFrom(json, p + 1);
        return if p != |json| then Some(TrailingText) else None;
      }
      return Some(NoCommaOrBrace);
    }
  }

  lemma BadMember(s: string, names: Names, cur: Options)
    requires |cur| == OPTION_COUNT && ReadMember(s).Bad?
    ensures ParseMembers(s, names, cur) == Refused(ReadMember(s).error)
  {}

  lemma UnknownMember(s: string, names: Names, cur: Options)
    requires |cur| == OPTION_COUNT && ReadMember(s).Member? && FindOption(ReadMember(s).name, 0).None?
    ensures ParseMembers(s, names, cur) == Refused(UnknownOption)
  {
    hide ReadMember, FindOption;
  }

  lemma TailTextStep(o: Options, names: Names, i: nat)
    requires |o| == OPTION_COUNT && i < OPTION_COUNT
    ensures TailText(o, names, i) ==
      MemberText(i, names, o[i]) + if i + 1 == OPTION_COUNT then "}" else ", " + TailText(o, names, i + 1)
  {
    hide MemberText;
  }

  /** serialize_attributes, appending member by member. */
  method SerializeAttributes(o: Options, names: Names) returns (out: string)
    requires |o| == OPTION_COUNT
    ensures out == Serialize(o, names)
  {
    hide MemberText, TailText;
    out := "{";
    ghost var whole := Serialize(o, names);
    assert whole == out + TailText(o, names, 0);
    for i := 0 to OPTION_COUNT
      invariant i == 0 ==> whole == out + TailText(o, names, 0)
      invariant 0 < i < OPTION_COUNT ==> whole == out + (", " + TailText(o, names, i))
      invariant i == OPTION_COUNT ==> whole == out + "}"
    {
      TailTextStep(o, names, i);
      ghost var tail := TailText(o, names, i);
      if i != 0 {
        assert out + (", " + tail) == (out + ", ") + tail;
        out := out + ", ";
      }
      var m := MemberText(i, names, o[i]);
      ghost var rest := if i + 1 == OPTION_COUNT then "}" else ", " + TailText(o, names, i + 1);
      assert out + (m + rest) == (out + m) + rest;
      out := out + m;
    }
    out := out + "}";
  }
}
